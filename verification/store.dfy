/**
 * The persisted workspace list and its four edits: create, update, delete
 * and reorder.  The list is the value the store holds under `workspaces`;
 * every edit is a function from the old list to the new one (and the
 * caller's reply).  The fresh UUID a new workspace receives is a parameter.
 */
module Store {
  import opened Wrappers

  datatype Workspace = Workspace(
    id: string,
    name: string,
    cwd: string,
    startupCommand: Option<string>,
    autoStart: bool,
    color: string,
    env: Option<map<string, string>>,
    shell: Option<string>,
    autoRestart: Option<bool>,
    maxRestarts: Option<int>,
    group: Option<string>,
    pinned: Option<bool>)

  /** A `Partial<Workspace>`: each present field replaces the stored one. */
  datatype Patch = Patch(
    id: Option<string>,
    name: Option<string>,
    cwd: Option<string>,
    startupCommand: Option<string>,
    autoStart: Option<bool>,
    color: Option<string>,
    env: Option<map<string, string>>,
    shell: Option<string>,
    autoRestart: Option<bool>,
    maxRestarts: Option<int>,
    group: Option<string>,
    pinned: Option<bool>)

  function OrOpt<T>(o: Option<T>, d: Option<T>): Option<T>
  {
    if o.Some? then o else d
  }

  /** A spread field: the patch's value when it has one, the stored one otherwise. */
  predicate Merged<T(==)>(patched: Option<T>, stored: T, result: T)
  {
    (patched.Some? ==> result == patched.value) && (patched.None? ==> result == stored)
  }

  /** A spread field that is itself optional: a present patch value wins, an absent one keeps the stored value. */
  predicate MergedOpt<T(==)>(patched: Option<T>, stored: Option<T>, result: Option<T>)
  {
    (patched.Some? ==> result == patched) && (patched.None? ==> result == stored)
  }

  /** `{ ...w, ...p, id }`: the patch's fields over the stored ones, the id forced back. */
  function ApplyPatch(w: Workspace, p: Patch, id: string): (r: Workspace)
    ensures r.id == id
    ensures Merged(p.name, w.name, r.name) && Merged(p.cwd, w.cwd, r.cwd)
    ensures MergedOpt(p.startupCommand, w.startupCommand, r.startupCommand)
    ensures Merged(p.autoStart, w.autoStart, r.autoStart) && Merged(p.color, w.color, r.color)
    ensures MergedOpt(p.env, w.env, r.env) && MergedOpt(p.shell, w.shell, r.shell)
    ensures MergedOpt(p.autoRestart, w.autoRestart, r.autoRestart)
    ensures MergedOpt(p.maxRestarts, w.maxRestarts, r.maxRestarts)
    ensures MergedOpt(p.group, w.group, r.group) && MergedOpt(p.pinned, w.pinned, r.pinned)
  {
    Workspace(
      id,
      p.name.GetOr(w.name),
      p.cwd.GetOr(w.cwd),
      OrOpt(p.startupCommand, w.startupCommand),
      p.autoStart.GetOr(w.autoStart),
      p.color.GetOr(w.color),
      OrOpt(p.env, w.env),
      OrOpt(p.shell, w.shell),
      OrOpt(p.autoRestart, w.autoRestart),
      OrOpt(p.maxRestarts, w.maxRestarts),
      OrOpt(p.group, w.group),
      OrOpt(p.pinned, w.pinned))
  }

  /** The patch with nothing in it. */
  function NoChange(): Patch
  {
    Patch(None, None, None, None, None, None, None, None, None, None, None, None)
  }

  /** An empty patch leaves the workspace as it was. */
  lemma ApplyNoChange(w: Workspace)
    ensures ApplyPatch(w, NoChange(), w.id) == w
  {
  }

  /** Patching twice is patching once with the second patch's fields winning. */
  lemma ApplyPatchLastWins(w: Workspace, p: Patch)
    ensures ApplyPatch(ApplyPatch(w, p, w.id), p, w.id) == ApplyPatch(w, p, w.id)
  {
  }

  function Ids(ws: seq<Workspace>): (ids: seq<string>)
    ensures |ids| == |ws|
    ensures forall i :: 0 <= i < |ws| ==> ids[i] == ws[i].id
  {
    if |ws| == 0 then [] else [ws[0].id] + Ids(ws[1..])
  }

  predicate UniqueIds(ws: seq<Workspace>)
  {
    forall i, j :: 0 <= i < j < |ws| ==> ws[i].id != ws[j].id
  }

  /** `findIndex`: the first position holding the id. */
  function IndexOf(ws: seq<Workspace>, id: string): (r: Option<nat>)
    ensures r.None? <==> forall i :: 0 <= i < |ws| ==> ws[i].id != id
    ensures r.Some? ==> r.value < |ws| && ws[r.value].id == id
    ensures r.Some? ==> forall i :: 0 <= i < r.value ==> ws[i].id != id
  {
    if |ws| == 0 then None
    else if ws[0].id == id then Some(0)
    else
      match IndexOf(ws[1..], id)
      case None => None
      case Some(k) => Some(k + 1)
  }

  /** `find`: the first workspace with the id. */
  function Find(ws: seq<Workspace>, id: string): (r: Option<Workspace>)
    ensures r.None? <==> forall i :: 0 <= i < |ws| ==> ws[i].id != id
    ensures r.Some? ==> r.value in ws && r.value.id == id
    ensures r.Some? ==> exists i :: 0 <= i < |ws| && ws[i] == r.value && forall j :: 0 <= j < i ==> ws[j].id != id
  {
    match IndexOf(ws, id)
    case None => None
    case Some(k) => Some(ws[k])
  }

  datatype Created = Created(workspaces: seq<Workspace>, workspace: Workspace)

  /** `createWorkspace`: the caller's fields with a fresh id, appended. */
  function Create(ws: seq<Workspace>, data: Workspace, freshId: string): (r: Created)
    ensures r.workspace == data.(id := freshId)
    ensures |r.workspaces| == |ws| + 1 && r.workspaces[..|ws|] == ws
    ensures r.workspaces[|ws|] == r.workspace
  {
    var w := data.(id := freshId);
    Created(ws + [w], w)
  }

  /** A fresh id keeps the ids unique. */
  lemma CreateKeepsUnique(ws: seq<Workspace>, data: Workspace, freshId: string)
    requires UniqueIds(ws) && freshId !in Ids(ws)
    ensures UniqueIds(Create(ws, data, freshId).workspaces)
  {
    var r := Create(ws, data, freshId).workspaces;
    forall i, j | 0 <= i < j < |r|
      ensures r[i].id != r[j].id
    {
      if j == |ws| {
        assert r[i].id == Ids(ws)[i];
      }
    }
  }

  datatype Updated = Updated(workspaces: seq<Workspace>, workspace: Option<Workspace>)

  /**
   * `updateWorkspace`: the first workspace with the id takes the patch, its
   * id kept; an unknown id changes nothing and answers null.
   */
  function Update(ws: seq<Workspace>, id: string, p: Patch): (r: Updated)
    ensures r.workspace.None? <==> forall i :: 0 <= i < |ws| ==> ws[i].id != id
    ensures r.workspace.None? ==> r.workspaces == ws
    ensures r.workspace.Some? ==>
      && |r.workspaces| == |ws|
      && r.workspace.value.id == id
      && exists k :: 0 <= k < |ws| && ws[k].id == id && (forall i :: 0 <= i < k ==> ws[i].id != id)
           && r.workspaces == ws[k := ApplyPatch(ws[k], p, id)]
           && r.workspace.value == r.workspaces[k]
  {
    match IndexOf(ws, id)
    case None => Updated(ws, None)
    case Some(k) =>
      var w := ApplyPatch(ws[k], p, id);
      Updated(ws[k := w], Some(w))
  }

  /** Updating never changes any workspace's id, so uniqueness survives. */
  lemma UpdateKeepsIds(ws: seq<Workspace>, id: string, p: Patch)
    ensures Ids(Update(ws, id, p).workspaces) == Ids(ws)
  {
  }

  /** The workspaces whose id differs, in their order; shorter exactly when some id matched. */
  function Filter(ws: seq<Workspace>, id: string): (r: seq<Workspace>)
    ensures |r| <= |ws|
    ensures |r| == |ws| <==> forall i :: 0 <= i < |ws| ==> ws[i].id != id
  {
    if |ws| == 0 then []
    else if ws[0].id == id then Filter(ws[1..], id)
    else [ws[0]] + Filter(ws[1..], id)
  }

  /** Filtering keeps exactly the workspaces with another id. */
  lemma {:induction false} FilterMembers(ws: seq<Workspace>, id: string)
    ensures forall w :: w in Filter(ws, id) <==> w in ws && w.id != id
    decreases |ws|
  {
    if |ws| > 0 {
      FilterMembers(ws[1..], id);
      assert ws == [ws[0]] + ws[1..];
    }
  }

  datatype Deleted = Deleted(workspaces: seq<Workspace>, removed: bool)

  /**
   * `deleteWorkspace`: every workspace with the id is dropped; the answer is
   * whether any was.  When none matched the stored list is left alone.
   */
  function Delete(ws: seq<Workspace>, id: string): (r: Deleted)
    ensures r.removed <==> exists i :: 0 <= i < |ws| && ws[i].id == id
    ensures !r.removed ==> r.workspaces == ws
    ensures forall w :: w in r.workspaces <==> w in ws && w.id != id
  {
    var filtered := Filter(ws, id);
    FilterMembers(ws, id);
    if |filtered| == |ws| then
      assert forall w :: w in ws ==> w.id != id;
      Deleted(ws, false)
    else Deleted(filtered, true)
  }

  /** With unique ids, deleting a present id removes exactly one workspace, in order. */
  lemma {:induction false} FilterUnique(ws: seq<Workspace>, id: string, k: nat)
    requires UniqueIds(ws) && k < |ws| && ws[k].id == id
    ensures Filter(ws, id) == ws[..k] + ws[k + 1..]
    decreases |ws|
  {
    var tail := ws[1..];
    UniqueTail(ws);
    if k == 0 {
      FilterAbsent(tail, id);
      assert ws[..0] + ws[1..] == tail;
    } else {
      FilterUnique(tail, id, k - 1);
      KeepHead(ws, id, k);
    }
  }

  /** A first workspace with another id stays in front of whatever the rest filters to. */
  lemma KeepHead(ws: seq<Workspace>, id: string, k: nat)
    requires 0 < k < |ws| && ws[0].id != id
    requires Filter(ws[1..], id) == ws[1..][..k - 1] + ws[1..][k..]
    ensures Filter(ws, id) == ws[..k] + ws[k + 1..]
  {
    calc {
      Filter(ws, id);
      [ws[0]] + Filter(ws[1..], id);
      [ws[0]] + (ws[1..][..k - 1] + ws[1..][k..]);
      { assert ws[1..][..k - 1] == ws[1..k]; assert ws[1..][k..] == ws[k + 1..]; }
      [ws[0]] + (ws[1..k] + ws[k + 1..]);
      { assert [ws[0]] + ws[1..k] == ws[..k]; }
      ws[..k] + ws[k + 1..];
    }
  }

  /** Dropping the first workspace keeps the ids unique, and none of the rest shares its id. */
  lemma UniqueTail(ws: seq<Workspace>)
    requires UniqueIds(ws) && |ws| > 0
    ensures UniqueIds(ws[1..])
    ensures forall i :: 0 <= i < |ws[1..]| ==> ws[1..][i].id != ws[0].id
  {
    var tail := ws[1..];
    forall i, j | 0 <= i < j < |tail|
      ensures tail[i].id != tail[j].id
    {
      assert tail[i] == ws[i + 1] && tail[j] == ws[j + 1];
    }
    forall i | 0 <= i < |tail|
      ensures tail[i].id != ws[0].id
    {
      assert tail[i] == ws[i + 1];
    }
  }

  lemma {:induction false} FilterAbsent(ws: seq<Workspace>, id: string)
    requires forall i :: 0 <= i < |ws| ==> ws[i].id != id
    ensures Filter(ws, id) == ws
    decreases |ws|
  {
    if |ws| > 0 {
      FilterAbsent(ws[1..], id);
      assert [ws[0]] + ws[1..] == ws;
    }
  }

  /** `reorderWorkspaces`: each requested id in turn, looked up; unknown ids are skipped. */
  function Reorder(ws: seq<Workspace>, ids: seq<string>): (r: seq<Workspace>)
    ensures |r| <= |ids|
    ensures forall w :: w in r ==> w in ws && w.id in ids
  {
    if |ids| == 0 then []
    else
      var head := match Find(ws, ids[0]) case None => [] case Some(w) => [w];
      head + Reorder(ws, ids[1..])
  }

  lemma {:induction false} ReorderConcat(ws: seq<Workspace>, a: seq<string>, b: seq<string>)
    ensures Reorder(ws, a + b) == Reorder(ws, a) + Reorder(ws, b)
    decreases |a|
  {
    if |a| > 0 {
      assert (a + b)[1..] == a[1..] + b;
      ReorderConcat(ws, a[1..], b);
    } else {
      assert a + b == b;
    }
  }

  /** Requesting the same ids in a different order yields the same workspaces, in that order. */
  lemma {:induction false} ReorderMultiset(ws: seq<Workspace>, a: seq<string>, b: seq<string>)
    requires multiset(a) == multiset(b)
    ensures multiset(Reorder(ws, a)) == multiset(Reorder(ws, b))
    decreases |a|
  {
    if |a| > 0 {
      var x := a[0];
      assert x in multiset(b);
      var j :| 0 <= j < |b| && b[j] == x;
      assert b == b[..j] + [x] + b[j + 1..];
      assert a == [x] + a[1..];
      assert multiset(a[1..]) == multiset(a) - multiset{x};
      assert multiset(b[..j] + b[j + 1..]) == multiset(b) - multiset{x};
      ReorderMultiset(ws, a[1..], b[..j] + b[j + 1..]);
      ReorderConcat(ws, [x], a[1..]);
      ReorderConcat(ws, b[..j] + [x], b[j + 1..]);
      ReorderConcat(ws, b[..j], [x]);
      ReorderConcat(ws, b[..j], b[j + 1..]);
    } else {
      assert multiset(b) == multiset{};
    }
  }

  /** With unique ids, requesting every id in stored order gives the list back. */
  lemma {:induction false} ReorderIdentity(ws: seq<Workspace>)
    requires UniqueIds(ws)
    ensures Reorder(ws, Ids(ws)) == ws
  {
    ReorderPrefix(ws, |ws|);
    assert Ids(ws)[..|ws|] == Ids(ws);
  }

  /** With unique ids, looking up a stored workspace's id finds that workspace. */
  lemma FindStored(ws: seq<Workspace>, i: nat)
    requires UniqueIds(ws) && i < |ws|
    ensures Find(ws, ws[i].id) == Some(ws[i])
  {
    var k := IndexOf(ws, ws[i].id).value;
    assert ws[k].id == ws[i].id;
  }

  lemma ReorderOne(ws: seq<Workspace>, i: nat)
    requires UniqueIds(ws) && i < |ws|
    ensures Reorder(ws, [ws[i].id]) == [ws[i]]
  {
    FindStored(ws, i);
    assert [ws[i].id][1..] == [];
  }

  lemma {:induction false} ReorderPrefix(ws: seq<Workspace>, n: nat)
    requires UniqueIds(ws) && n <= |ws|
    ensures Reorder(ws, Ids(ws)[..n]) == ws[..n]
    decreases n
  {
    if n > 0 {
      var ids := Ids(ws);
      var x := ws[n - 1].id;
      assert ids[..n] == ids[..n - 1] + [x];
      calc {
        Reorder(ws, ids[..n]);
        Reorder(ws, ids[..n - 1] + [x]);
        { ReorderConcat(ws, ids[..n - 1], [x]); }
        Reorder(ws, ids[..n - 1]) + Reorder(ws, [x]);
        { ReorderPrefix(ws, n - 1); ReorderOne(ws, n - 1); }
        ws[..n - 1] + [ws[n - 1]];
        ws[..n];
      }
    }
  }

  /**
   * Dragging tabs sends every workspace id once in the new order; with
   * unique ids the stored list is then a permutation of the old one.
   */
  lemma ReorderPermutes(ws: seq<Workspace>, ids: seq<string>)
    requires UniqueIds(ws) && multiset(ids) == multiset(Ids(ws))
    ensures multiset(Reorder(ws, ids)) == multiset(ws)
    ensures |Reorder(ws, ids)| == |ws|
  {
    ReorderMultiset(ws, ids, Ids(ws));
    ReorderIdentity(ws);
    assert |multiset(Reorder(ws, ids))| == |multiset(ws)|;
  }
}

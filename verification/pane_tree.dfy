/**
 * The split-pane layout of one tab: a strict binary tree whose leaves are
 * terminal panes.  The source compares nodes by object reference; since a tab
 * owns its tree exclusively and never shares a node between two places, each
 * node sits at exactly one position, so the model names a node by its PATH
 * from the root (a sequence of child indices 0/1) and a leaf by its pane id.
 */
module PaneTree {
  import opened Wrappers

  datatype Direction = Horizontal | Vertical

  /** The lifecycle of one pane's process, as shown to the user. */
  datatype Status = Idle | Starting | Running | Dead

  /**
   * A split always holds exactly two children: `first` is `children[0]`,
   * `second` is `children[1]`, and `ratio` is the share of `first`.
   */
  datatype PaneNode =
    | Leaf(id: string, status: Status)
    | Split(direction: Direction, first: PaneNode, second: PaneNode, ratio: real)

  type Path = seq<nat>

  function Child(n: PaneNode, i: nat): PaneNode
    requires n.Split? && i < 2
  {
    if i == 0 then n.first else n.second
  }

  /** The ids of `findAllLeaves`, left to right. */
  function Ids(n: PaneNode): (ids: seq<string>)
    ensures 1 <= |ids|
  {
    match n
    case Leaf(id, _) => [id]
    case Split(_, a, b, _) => Ids(a) + Ids(b)
  }

  /** The leaves of `findAllLeaves`, left to right. */
  function Leaves(n: PaneNode): (ls: seq<PaneNode>)
    ensures |ls| == |Ids(n)|
    ensures forall i :: 0 <= i < |ls| ==> ls[i].Leaf? && ls[i].id == Ids(n)[i]
  {
    match n
    case Leaf(_, _) => [n]
    case Split(_, a, b, _) => Leaves(a) + Leaves(b)
  }

  function LeafCount(n: PaneNode): nat
  {
    |Ids(n)|
  }

  /** No pane id occurs twice. */
  predicate Unique(s: seq<string>)
  {
    forall i, j :: 0 <= i < j < |s| ==> s[i] != s[j]
  }

  lemma UniqueConcat(a: seq<string>, b: seq<string>)
    ensures Unique(a + b) <==> Unique(a) && Unique(b) && (forall x :: x in a ==> x !in b)
  {
    if Unique(a + b) {
      forall i, j | 0 <= i < |a| && 0 <= j < |b| ensures a[i] != b[j] {
        assert (a + b)[i] == a[i] && (a + b)[|a| + j] == b[j];
      }
      forall i, j | 0 <= i < j < |b| ensures b[i] != b[j] {
        assert (a + b)[|a| + i] == b[i] && (a + b)[|a| + j] == b[j];
      }
      forall i, j | 0 <= i < j < |a| ensures a[i] != a[j] {
        assert (a + b)[i] == a[i] && (a + b)[j] == a[j];
      }
    }
    if Unique(a) && Unique(b) && (forall x :: x in a ==> x !in b) {
      forall i, j | 0 <= i < j < |a + b| ensures (a + b)[i] != (a + b)[j] {
        if j < |a| {
        } else if i >= |a| {
          assert (a + b)[i] == b[i - |a|] && (a + b)[j] == b[j - |a|];
        } else {
          assert (a + b)[i] in a && (a + b)[j] in b;
        }
      }
    }
  }

  predicate ValidPath(n: PaneNode, p: Path)
    decreases p
  {
    |p| == 0 || (n.Split? && p[0] < 2 && ValidPath(Child(n, p[0]), p[1..]))
  }

  /** The node at path `p`. */
  function At(n: PaneNode, p: Path): PaneNode
    requires ValidPath(n, p)
    decreases p
  {
    if |p| == 0 then n else At(Child(n, p[0]), p[1..])
  }

  /** The ids of the leaves left of the subtree at `p`. */
  function IdsBefore(n: PaneNode, p: Path): seq<string>
    requires ValidPath(n, p)
    decreases p
  {
    if |p| == 0 then []
    else if p[0] == 0 then IdsBefore(n.first, p[1..])
    else Ids(n.first) + IdsBefore(n.second, p[1..])
  }

  /** The ids of the leaves right of the subtree at `p`. */
  function IdsAfter(n: PaneNode, p: Path): seq<string>
    requires ValidPath(n, p)
    decreases p
  {
    if |p| == 0 then []
    else if p[0] == 0 then IdsAfter(n.first, p[1..]) + Ids(n.second)
    else IdsAfter(n.second, p[1..])
  }

  /** The leaves of a tree are the leaves left of a subtree, the subtree's own, and those right of it. */
  lemma {:induction false} IdsAround(n: PaneNode, p: Path)
    requires ValidPath(n, p)
    ensures Ids(n) == IdsBefore(n, p) + Ids(At(n, p)) + IdsAfter(n, p)
    decreases p
  {
    if |p| > 0 {
      IdsAround(Child(n, p[0]), p[1..]);
    }
  }

  /**
   * `replacePaneInTree`: put `r` where the node at `p` was.  Every split on the
   * way down keeps its direction, ratio and other child.
   */
  function ReplaceAt(n: PaneNode, p: Path, r: PaneNode): (m: PaneNode)
    requires ValidPath(n, p)
    ensures ValidPath(m, p) && At(m, p) == r
    ensures |p| > 0 ==> m.Split? && m.direction == n.direction && m.ratio == n.ratio
    ensures |p| > 0 ==> Child(m, 1 - p[0]) == Child(n, 1 - p[0])
    decreases p
  {
    if |p| == 0 then r
    else if p[0] == 0 then Split(n.direction, ReplaceAt(n.first, p[1..], r), n.second, n.ratio)
    else Split(n.direction, n.first, ReplaceAt(n.second, p[1..], r), n.ratio)
  }

  /** Replacing one subtree leaves every subtree beside it (on a path that diverges from `p`) as it was. */
  lemma {:induction false} ReplaceAtFrame(n: PaneNode, p: Path, r: PaneNode, q: Path)
    requires ValidPath(n, p) && ValidPath(n, q)
    requires !(p <= q) && !(q <= p)
    ensures ValidPath(ReplaceAt(n, p, r), q)
    ensures At(ReplaceAt(n, p, r), q) == At(n, q)
    decreases p
  {
    assert |p| > 0 && |q| > 0;
    if p[0] == q[0] {
      assert !(p[1..] <= q[1..]) && !(q[1..] <= p[1..]);
      ReplaceAtFrame(Child(n, p[0]), p[1..], r, q[1..]);
    }
  }

  /** Replacing a subtree swaps its leaves for the replacement's and keeps all the others, in order. */
  lemma {:induction false} ReplaceAtIds(n: PaneNode, p: Path, r: PaneNode)
    requires ValidPath(n, p)
    ensures Ids(ReplaceAt(n, p, r)) == IdsBefore(n, p) + Ids(r) + IdsAfter(n, p)
    decreases p
  {
    if |p| > 0 {
      ReplaceAtIds(Child(n, p[0]), p[1..], r);
    }
  }

  /**
   * `findPaneById`, returning where the leaf sits: the first leaf, left to
   * right, whose id is `id`.
   */
  function FindPath(n: PaneNode, id: string): (r: Option<Path>)
    ensures r.None? <==> id !in Ids(n)
    ensures r.Some? ==> ValidPath(n, r.value) && At(n, r.value).Leaf? && At(n, r.value).id == id
    ensures r.Some? ==> id !in IdsBefore(n, r.value)
  {
    match n
    case Leaf(lid, _) => if lid == id then Some([]) else None
    case Split(_, a, b, _) =>
      match FindPath(a, id)
      case Some(p) => Some([0] + p)
      case None =>
        match FindPath(b, id)
        case Some(p) => Some([1] + p)
        case None => None
  }

  /** `findPaneById`: the first leaf carrying `id`, if any. */
  function FindPaneById(n: PaneNode, id: string): (r: Option<PaneNode>)
    ensures r.None? <==> id !in Ids(n)
    ensures r.Some? ==> r.value.Leaf? && r.value.id == id && r.value in Leaves(n)
  {
    match FindPath(n, id)
    case None => None
    case Some(p) =>
      LeafAtPathInLeaves(n, p);
      Some(At(n, p))
  }

  lemma {:induction false} LeafAtPathInLeaves(n: PaneNode, p: Path)
    requires ValidPath(n, p) && At(n, p).Leaf?
    ensures At(n, p) in Leaves(n)
    decreases p
  {
    if |p| > 0 {
      LeafAtPathInLeaves(Child(n, p[0]), p[1..]);
    }
  }

  /** In a tree without repeated ids, a leaf's path is the only path to a leaf with that id. */
  lemma {:induction false} UniqueLeafPath(n: PaneNode, p: Path, q: Path)
    requires Unique(Ids(n))
    requires ValidPath(n, p) && ValidPath(n, q)
    requires At(n, p).Leaf? && At(n, q).Leaf? && At(n, p).id == At(n, q).id
    ensures p == q
    decreases p
  {
    if |p| == 0 || |q| == 0 {
      assert n.Leaf?;
    } else {
      UniqueConcat(Ids(n.first), Ids(n.second));
      InSubtree(Child(n, p[0]), p[1..]);
      InSubtree(Child(n, q[0]), q[1..]);
      assert p[0] == q[0];
      UniqueLeafPath(Child(n, p[0]), p[1..], q[1..]);
    }
  }

  /** A leaf's id belongs to every subtree on its path. */
  lemma {:induction false} InSubtree(n: PaneNode, p: Path)
    requires ValidPath(n, p) && At(n, p).Leaf?
    ensures At(n, p).id in Ids(n)
    decreases p
  {
    if |p| > 0 {
      InSubtree(Child(n, p[0]), p[1..]);
    }
  }

  /**
   * The result of `findSiblingInNode`: the tree after the parent split of the
   * closed leaf has been replaced by the sibling, the sibling itself, and
   * where the parent split was.
   */
  datatype Removal = Removal(tree: PaneNode, sibling: PaneNode, parent: Path, index: nat)

  /**
   * `findSiblingInNode` followed by its `replacePaneInTree`: search the splits
   * in pre-order for one whose child `i` is the leaf `id`; put that split's
   * other child, wholesale, in the split's place.
   */
  function CloseInNode(n: PaneNode, id: string): (r: Option<Removal>)
    ensures r.Some? <==> n.Split? && id in Ids(n)
    ensures r.Some? ==>
      && ValidPath(n, r.value.parent)
      && At(n, r.value.parent).Split?
      && r.value.index < 2
      && Child(At(n, r.value.parent), r.value.index).Leaf?
      && Child(At(n, r.value.parent), r.value.index).id == id
      && r.value.sibling == Child(At(n, r.value.parent), 1 - r.value.index)
      && r.value.tree == ReplaceAt(n, r.value.parent, r.value.sibling)
  {
    match n
    case Leaf(_, _) => None
    case Split(d, a, b, ratio) =>
      if a.Leaf? && a.id == id then Some(Removal(b, b, [], 0))
      else
        match CloseInNode(a, id)
        case Some(Removal(a', s, p, i)) => Some(Removal(Split(d, a', b, ratio), s, [0] + p, i))
        case None =>
          if b.Leaf? && b.id == id then Some(Removal(a, a, [], 1))
          else
            match CloseInNode(b, id)
            case Some(Removal(b', s, p, i)) => Some(Removal(Split(d, a, b', ratio), s, [1] + p, i))
            case None => None
  }

  /** `s` with every occurrence of `x` removed, order kept. */
  function Without(s: seq<string>, x: string): (r: seq<string>)
    ensures |r| <= |s|
    ensures forall y :: y in r <==> y in s && y != x
  {
    if |s| == 0 then []
    else if s[0] == x then Without(s[1..], x)
    else [s[0]] + Without(s[1..], x)
  }

  lemma {:induction false} WithoutAbsent(s: seq<string>, x: string)
    requires x !in s
    ensures Without(s, x) == s
  {
    if |s| > 0 {
      WithoutAbsent(s[1..], x);
      assert [s[0]] + s[1..] == s;
    }
  }

  lemma {:induction false} WithoutConcat(a: seq<string>, b: seq<string>, x: string)
    ensures Without(a + b, x) == Without(a, x) + Without(b, x)
  {
    if |a| > 0 {
      assert (a + b)[1..] == a[1..] + b;
      WithoutConcat(a[1..], b, x);
    } else {
      assert a + b == b;
    }
  }

  /**
   * Closing a leaf in a tree with distinct ids removes exactly that leaf:
   * every other pane stays, in the same left-to-right order, and the count
   * drops by one.
   */
  lemma {:induction false} CloseInNodeIds(n: PaneNode, id: string)
    requires Unique(Ids(n)) && n.Split? && id in Ids(n)
    ensures CloseInNode(n, id).Some?
    ensures Ids(CloseInNode(n, id).value.tree) == Without(Ids(n), id)
    ensures |Ids(CloseInNode(n, id).value.tree)| == |Ids(n)| - 1
    ensures Unique(Ids(CloseInNode(n, id).value.tree))
  {
    var rm := CloseInNode(n, id).value;
    var p := rm.parent;
    var s := At(n, p);
    IdsAround(n, p);
    ReplaceAtIds(n, p, rm.sibling);
    var pre, post := IdsBefore(n, p), IdsAfter(n, p);
    UniqueConcat(pre + Ids(s), post);
    UniqueConcat(pre, Ids(s));
    UniqueConcat(Ids(s.first), Ids(s.second));
    assert id !in pre && id !in post;
    WithoutAbsent(pre, id);
    WithoutAbsent(post, id);
    WithoutAbsent(Ids(rm.sibling), id);
    WithoutConcat(pre + Ids(s), post, id);
    WithoutConcat(pre, Ids(s), id);
    WithoutConcat(Ids(s.first), Ids(s.second), id);
    assert Ids(n) == pre + Ids(s) + post;
    if rm.index == 0 {
      assert Ids(s.first) == [id];
      assert Without([id], id) == [];
      assert Without(Ids(s), id) == Ids(rm.sibling);
    } else {
      assert Ids(s.second) == [id];
      assert Without([id], id) == [];
      assert Without(Ids(s), id) == Ids(rm.sibling);
    }
    assert |Ids(s)| == |Ids(rm.sibling)| + 1;
    UniqueConcat(pre, Ids(rm.sibling));
    UniqueConcat(pre + Ids(rm.sibling), post);
  }

  /** The node at `p` is a split whose leaves include `id`: one of the leaf's ancestor splits. */
  predicate IsAncestorSplit(n: PaneNode, p: Path, id: string)
  {
    ValidPath(n, p) && At(n, p).Split? && id in Ids(At(n, p))
  }

  /**
   * `findParentSplit`: descend towards the leaf `id`; a split whose direction
   * matches is the answer unless a deeper matching split on the way down
   * exists, in which case the deeper one wins.
   */
  function FindParentSplit(n: PaneNode, id: string, dir: Direction): (r: Option<Path>)
    ensures r.Some? ==> IsAncestorSplit(n, r.value, id) && At(n, r.value).direction == dir
  {
    match n
    case Leaf(_, _) => None
    case Split(d, a, b, _) =>
      if id in Ids(a) then
        if d == dir then
          if a.Split? then
            match FindParentSplit(a, id, dir)
            case Some(p) => Some([0] + p)
            case None => Some([])
          else Some([])
        else
          match FindParentSplit(a, id, dir)
          case Some(p) => Some([0] + p)
          case None => None
      else if id in Ids(b) then
        if d == dir then
          if b.Split? then
            match FindParentSplit(b, id, dir)
            case Some(p) => Some([1] + p)
            case None => Some([])
          else Some([])
        else
          match FindParentSplit(b, id, dir)
          case Some(p) => Some([1] + p)
          case None => None
      else None
  }

  /** With distinct ids, an ancestor split below the root lies on the side that holds the leaf. */
  lemma AncestorSide(n: PaneNode, q: Path, id: string)
    requires Unique(Ids(n)) && n.Split? && |q| > 0 && IsAncestorSplit(n, q, id)
    ensures q[0] == (if id in Ids(n.first) then 0 else 1)
    ensures IsAncestorSplit(Child(n, q[0]), q[1..], id)
  {
    UniqueConcat(Ids(n.first), Ids(n.second));
    IdsAround(Child(n, q[0]), q[1..]);
  }

  /**
   * `findParentSplit` picks the deepest matching ancestor, and finds nothing
   * only when no ancestor split of the leaf has the requested direction.
   */
  lemma {:induction false} FindParentSplitDeepest(n: PaneNode, id: string, dir: Direction, q: Path)
    requires Unique(Ids(n))
    requires IsAncestorSplit(n, q, id) && At(n, q).direction == dir
    ensures FindParentSplit(n, id, dir).Some?
    ensures q <= FindParentSplit(n, id, dir).value
    decreases q
  {
    var a, b := n.first, n.second;
    UniqueConcat(Ids(a), Ids(b));
    if |q| == 0 {
      assert n.direction == dir;
    } else {
      AncestorSide(n, q, id);
      var c := Child(n, q[0]);
      FindParentSplitDeepest(c, id, dir, q[1..]);
      assert [q[0]] + q[1..] == q;
    }
  }

  /** A direction with no matching ancestor makes `findParentSplit` come back empty. */
  lemma FindParentSplitNone(n: PaneNode, id: string, dir: Direction)
    requires Unique(Ids(n))
    requires forall q :: IsAncestorSplit(n, q, id) ==> At(n, q).direction != dir
    ensures FindParentSplit(n, id, dir).None?
  {
  }
}

/**
 * The invitation network page (src/pages/NetworkPage.tsx): the forest of
 * invitations rendered as a collapsible tree, the set of collapsed node ids,
 * the "expand all" / "collapse all" commands and the colour lookups used by
 * every node card.
 */
module InvitationTree {
  import opened Optional
  import Theme

  // ------------------------------------------------------------------
  // Data
  // ------------------------------------------------------------------

  /** The per-inviter quality record the backend attaches to every node. */
  datatype QualityInfo = QualityInfo(
    invitedCount: int,
    approvedCount: int,
    rejectedCount: int,
    pendingCount: int,
    approvalRate: Option<real>,
    qualityScore: Option<string>,
    qualityLabel: string)

  /** One user of the invitation forest with the users they invited. */
  datatype TreeNode = TreeNode(
    id: int,
    serialNumber: Option<string>,
    name: string,
    gender: string,
    age: int,
    status: string,
    depth: int,
    quality: QualityInfo,
    descendantCount: int,
    children: seq<TreeNode>)

  predicate HasChildren(n: TreeNode)
  {
    |n.children| > 0
  }

  // ------------------------------------------------------------------
  // Colour lookups
  // ------------------------------------------------------------------

  datatype QualityStyle = QualityStyle(bg: string, color: string, border: string)

  /** The four quality grades the backend hands out. */
  const Grades: set<string> := {"A", "B", "C", "D"}

  /** The `QUALITY_COLORS` table. */
  const QualityColors: map<string, QualityStyle> := map[
    "A" := QualityStyle("rgba(52,211,153,0.15)", "#34D399", "#34D39944"),
    "B" := QualityStyle("rgba(96,165,250,0.15)", "#60A5FA", "#60A5FA44"),
    "C" := QualityStyle("rgba(251,191,36,0.15)", "#FBBF24", "#FBBF2444"),
    "D" := QualityStyle("rgba(248,113,113,0.15)", "#F87171", "#F8717144")]

  /** The style of an ungraded node. */
  const MutedStyle: QualityStyle := QualityStyle(Theme.SurfaceHover, Theme.TextMuted, Theme.Border)

  /**
   * `getQualityStyle`: a missing or empty score (falsy in JavaScript) and any
   * score outside the table fall back to the muted style.
   */
  function QualityStyleOf(score: Option<string>): (s: QualityStyle)
    ensures s.color == Theme.TextMuted <==> score.None? || score.value !in Grades
    ensures score.Some? && score.value in Grades ==> s == QualityColors[score.value]
    ensures score.None? || score.value !in Grades ==> s == MutedStyle
  {
    if score.None? || score.value == "" then MutedStyle
    else if score.value in QualityColors then QualityColors[score.value]
    else MutedStyle
  }

  /** Different grades are shown in different colours, so the colour identifies the grade. */
  lemma QualityColorIdentifiesGrade(g1: string, g2: string)
    requires g1 in Grades && g2 in Grades
    requires QualityStyleOf(Some(g1)).color == QualityStyleOf(Some(g2)).color
    ensures g1 == g2
  {
  }

  /** The `map` inside `getStatusDot`. */
  const StatusDotColors: map<string, string> := map[
    "approved" := Theme.Success,
    "published" := Theme.Info,
    "rejected" := Theme.Danger,
    "pending" := Theme.Warning]

  /** `getStatusDot`: the dot colour of a node's review status, muted for unknown statuses. */
  function StatusDot(status: string): (c: string)
    ensures c == Theme.TextMuted <==> status !in StatusDotColors
    ensures status in StatusDotColors ==> c == StatusDotColors[status]
  {
    if status in StatusDotColors then StatusDotColors[status] else Theme.TextMuted
  }

  /** Distinct known statuses get distinct dots. */
  lemma StatusDotIdentifiesStatus(s1: string, s2: string)
    requires s1 in StatusDotColors && s2 in StatusDotColors
    requires StatusDot(s1) == StatusDot(s2)
    ensures s1 == s2
  {
  }

  // ------------------------------------------------------------------
  // collectAllIds
  // ------------------------------------------------------------------

  /** The id list `collectAllIds` builds, as a value. */
  function AllIds(nodes: seq<TreeNode>): seq<int>
  {
    if nodes == [] then []
    else
      (if HasChildren(nodes[0]) then [nodes[0].id] else [])
      + AllIds(nodes[0].children) + AllIds(nodes[1..])
  }

  /** Every node of the forest, each parent before its subtree, siblings in their given order. */
  function PreOrder(nodes: seq<TreeNode>): seq<TreeNode>
  {
    if nodes == [] then [] else [nodes[0]] + PreOrder(nodes[0].children) + PreOrder(nodes[1..])
  }

  /** The ids of the nodes of `ns` that have children, in the order of `ns`. */
  function ParentIds(ns: seq<TreeNode>): seq<int>
  {
    if ns == [] then [] else (if HasChildren(ns[0]) then [ns[0].id] else []) + ParentIds(ns[1..])
  }

  /**
   * `collectAllIds`: a for-loop over the siblings that pushes the id of each
   * node with children and then everything its own recursive call returns.
   */
  method CollectAllIds(nodes: seq<TreeNode>) returns (ids: seq<int>)
    ensures ids == AllIds(nodes)
  {
    ids := [];
    var i := 0;
    while i < |nodes|
      invariant 0 <= i <= |nodes|
      invariant ids + AllIds(nodes[i..]) == AllIds(nodes)
    {
      var n := nodes[i];
      if HasChildren(n) {
        ids := ids + [n.id];
      }
      var sub := CollectAllIds(n.children);
      ids := ids + sub;
      assert nodes[i..][1..] == nodes[i + 1..];
      i := i + 1;
    }
    assert nodes[i..] == [];
  }

  lemma {:induction false} ParentIdsConcat(a: seq<TreeNode>, b: seq<TreeNode>)
    ensures ParentIds(a + b) == ParentIds(a) + ParentIds(b)
  {
    if a != [] {
      assert (a + b)[1..] == a[1..] + b;
      ParentIdsConcat(a[1..], b);
    } else {
      assert a + b == b;
    }
  }

  /**
   * `collectAllIds` lists exactly the ids of the nodes that have children, in
   * pre-order: it equals the pre-order listing of the whole forest, filtered
   * to nodes with children.
   */
  lemma {:induction false} AllIdsIsPreOrderParents(nodes: seq<TreeNode>)
    ensures AllIds(nodes) == ParentIds(PreOrder(nodes))
  {
    if nodes != [] {
      var n := nodes[0];
      AllIdsIsPreOrderParents(n.children);
      AllIdsIsPreOrderParents(nodes[1..]);
      ParentIdsConcat([n] + PreOrder(n.children), PreOrder(nodes[1..]));
      ParentIdsConcat([n], PreOrder(n.children));
      assert ParentIds([n]) == (if HasChildren(n) then [n.id] else []);
    }
  }

  /** Siblings keep their order: the ids of a concatenated forest are the concatenated ids. */
  lemma {:induction false} AllIdsConcat(a: seq<TreeNode>, b: seq<TreeNode>)
    ensures AllIds(a + b) == AllIds(a) + AllIds(b)
  {
    if a != [] {
      assert (a + b)[0] == a[0];
      assert (a + b)[1..] == a[1..] + b;
      AllIdsConcat(a[1..], b);
    } else {
      assert a + b == b;
    }
  }

  lemma {:induction false} ParentIdsMembership(ns: seq<TreeNode>, x: int)
    ensures x in ParentIds(ns) <==> exists n :: n in ns && HasChildren(n) && n.id == x
  {
    if ns != [] {
      ParentIdsMembership(ns[1..], x);
      if x in ParentIds(ns[1..]) {
        var n :| n in ns[1..] && HasChildren(n) && n.id == x;
        assert n in ns;
      }
      if exists n :: n in ns && HasChildren(n) && n.id == x {
        var n :| n in ns && HasChildren(n) && n.id == x;
        if n != ns[0] {
          assert n in ns[1..];
        }
      }
    }
  }

  /**
   * An id is collected if and only if some node of the forest, at any depth,
   * carries it and has at least one child.
   */
  lemma AllIdsMembership(nodes: seq<TreeNode>, x: int)
    ensures x in AllIds(nodes) <==> exists n :: n in PreOrder(nodes) && HasChildren(n) && n.id == x
  {
    AllIdsIsPreOrderParents(nodes);
    ParentIdsMembership(PreOrder(nodes), x);
  }

  lemma {:induction false} RootsInPreOrder(nodes: seq<TreeNode>, i: nat)
    requires i < |nodes|
    ensures nodes[i] in PreOrder(nodes)
  {
    if i > 0 {
      RootsInPreOrder(nodes[1..], i - 1);
    }
  }

  // ------------------------------------------------------------------
  // The collapsed set
  // ------------------------------------------------------------------

  /** The set `handleToggle` stores: `prev` with the membership of `id` flipped. */
  function Toggled(prev: set<int>, id: int): (next: set<int>)
    ensures id in next <==> id !in prev
    ensures forall x :: x != id ==> (x in next <==> x in prev)
  {
    (prev - {id}) + ({id} - prev)
  }

  /** `handleToggle`'s updater: copy the previous set, then delete or add `id` in the copy. */
  method HandleToggle(prev: set<int>, id: int) returns (next: set<int>)
    ensures next == Toggled(prev, id)
  {
    next := prev;
    if id in next {
      next := next - {id};
    } else {
      next := next + {id};
    }
  }

  /** Toggling the same node twice restores the collapsed set. */
  lemma ToggleTwiceRestores(s: set<int>, id: int)
    ensures Toggled(Toggled(s, id), id) == s
  {
  }

  /** `expandAll`: nothing is collapsed. */
  function ExpandAll(): (collapsed: set<int>)
    ensures forall id :: id !in collapsed
  {
    {}
  }

  /** `collapseAll`: every id `collectAllIds` finds in the tree. */
  method CollapseAll(tree: seq<TreeNode>) returns (collapsed: set<int>)
    ensures forall x :: x in collapsed <==> x in AllIds(tree)
    ensures forall x :: x in collapsed <==> exists n :: n in PreOrder(tree) && HasChildren(n) && n.id == x
  {
    var ids := CollectAllIds(tree);
    collapsed := set x | x in ids;
    forall x
      ensures x in collapsed <==> exists n :: n in PreOrder(tree) && HasChildren(n) && n.id == x
    {
      AllIdsMembership(tree, x);
    }
  }

  // ------------------------------------------------------------------
  // TreeBranch
  // ------------------------------------------------------------------

  /**
   * The node cards `TreeBranch` renders, in document order: each node's card,
   * then, when it has children and is not collapsed, its children's branch.
   */
  function Rendered(nodes: seq<TreeNode>, collapsed: set<int>): (cards: seq<TreeNode>)
    ensures |cards| <= |PreOrder(nodes)|
    ensures forall n :: n in cards ==> n in PreOrder(nodes)
    ensures forall i :: 0 <= i < |nodes| ==> nodes[i] in cards
  {
    if nodes == [] then []
    else
      [nodes[0]]
      + (if HasChildren(nodes[0]) && nodes[0].id !in collapsed
         then Rendered(nodes[0].children, collapsed) else [])
      + Rendered(nodes[1..], collapsed)
  }

  /** With nothing collapsed the tree shows every node, in pre-order. */
  lemma {:induction false} ExpandAllShowsEveryNode(nodes: seq<TreeNode>)
    ensures Rendered(nodes, ExpandAll()) == PreOrder(nodes)
  {
    if nodes != [] {
      ExpandAllShowsEveryNode(nodes[0].children);
      ExpandAllShowsEveryNode(nodes[1..]);
    }
  }

  lemma {:induction false} CollapsedRootsShowOnlyRoots(nodes: seq<TreeNode>, collapsed: set<int>)
    requires forall i :: 0 <= i < |nodes| && HasChildren(nodes[i]) ==> nodes[i].id in collapsed
    ensures Rendered(nodes, collapsed) == nodes
  {
    if nodes != [] {
      CollapsedRootsShowOnlyRoots(nodes[1..], collapsed);
      assert nodes == [nodes[0]] + nodes[1..];
    }
  }

  /** After "collapse all" only the root nodes are shown. */
  lemma CollapseAllShowsOnlyRoots(tree: seq<TreeNode>)
    ensures Rendered(tree, set x | x in AllIds(tree)) == tree
  {
    forall i | 0 <= i < |tree| && HasChildren(tree[i])
      ensures tree[i].id in AllIds(tree)
    {
      RootsInPreOrder(tree, i);
      AllIdsMembership(tree, tree[i].id);
    }
    CollapsedRootsShowOnlyRoots(tree, set x | x in AllIds(tree));
  }

  /**
   * Positions in the forest: `path[0]` indexes the roots and each further
   * index the children of the node reached so far.
   */
  function At(nodes: seq<TreeNode>, path: seq<nat>): Option<TreeNode>
    decreases path
  {
    if path == [] || path[0] >= |nodes| then None
    else if |path| == 1 then Some(nodes[path[0]])
    else At(nodes[path[0]].children, path[1..])
  }

  /** The nodes strictly above the position `path`, from the root down. */
  function ProperAncestors(nodes: seq<TreeNode>, path: seq<nat>): seq<TreeNode>
    decreases path
  {
    if |path| <= 1 || path[0] >= |nodes| then []
    else [nodes[path[0]]] + ProperAncestors(nodes[path[0]].children, path[1..])
  }

  /**
   * Whether `TreeBranch` renders a card at position `path`: the position exists
   * at this level, or the node there has children, is not collapsed, and the
   * rest of the path is rendered by the children's branch.
   */
  predicate Shown(nodes: seq<TreeNode>, collapsed: set<int>, path: seq<nat>)
    ensures Shown(nodes, collapsed, path) ==> At(nodes, path).Some?
    decreases path
  {
    && |path| > 0
    && path[0] < |nodes|
    && (|path| == 1
        || (&& HasChildren(nodes[path[0]])
            && nodes[path[0]].id !in collapsed
            && Shown(nodes[path[0]].children, collapsed, path[1..])))
  }

  /** A node is shown if and only if it exists and none of its proper ancestors is collapsed. */
  lemma {:induction false} ShownIffNoCollapsedAncestor(nodes: seq<TreeNode>, collapsed: set<int>, path: seq<nat>)
    ensures Shown(nodes, collapsed, path)
            <==> At(nodes, path).Some? && forall a :: a in ProperAncestors(nodes, path) ==> a.id !in collapsed
    decreases path
  {
    if |path| > 1 && path[0] < |nodes| {
      var n := nodes[path[0]];
      ShownIffNoCollapsedAncestor(n.children, collapsed, path[1..]);
      assert ProperAncestors(nodes, path) == [n] + ProperAncestors(n.children, path[1..]);
      if At(nodes, path).Some? {
        assert path[1..][0] < |n.children|;
      }
    }
  }

  /** The branch rendered under a shown, expanded node is part of the rendered tree. */
  lemma {:induction false} RenderedContainsExpandedBranch(nodes: seq<TreeNode>, collapsed: set<int>, k: nat)
    requires k < |nodes| && HasChildren(nodes[k]) && nodes[k].id !in collapsed
    ensures forall m :: m in Rendered(nodes[k].children, collapsed) ==> m in Rendered(nodes, collapsed)
  {
    if k > 0 {
      RenderedContainsExpandedBranch(nodes[1..], collapsed, k - 1);
      assert nodes[1..][k - 1] == nodes[k];
    }
  }

  /** Every position `Shown` accepts holds a card of the rendered tree. */
  lemma {:induction false} ShownIsRendered(nodes: seq<TreeNode>, collapsed: set<int>, path: seq<nat>)
    requires Shown(nodes, collapsed, path)
    ensures At(nodes, path).Some? && At(nodes, path).value in Rendered(nodes, collapsed)
    decreases path
  {
    if |path| > 1 {
      var k := path[0];
      ShownIsRendered(nodes[k].children, collapsed, path[1..]);
      RenderedContainsExpandedBranch(nodes, collapsed, k);
    }
  }

  /** A position under the first node, seen from the forest: prefix index 0. */
  lemma ShownUnderFirst(nodes: seq<TreeNode>, collapsed: set<int>, p: seq<nat>)
    requires |nodes| > 0 && HasChildren(nodes[0]) && nodes[0].id !in collapsed
    requires Shown(nodes[0].children, collapsed, p)
    ensures Shown(nodes, collapsed, [0] + p) && At(nodes, [0] + p) == At(nodes[0].children, p)
  {
    assert ([0] + p)[1..] == p;
  }

  /** A position among the later siblings, seen from the forest: shift the first index by one. */
  lemma ShownInTail(nodes: seq<TreeNode>, collapsed: set<int>, p: seq<nat>)
    requires |nodes| > 0 && Shown(nodes[1..], collapsed, p)
    ensures Shown(nodes, collapsed, [p[0] + 1] + p[1..])
    ensures At(nodes, [p[0] + 1] + p[1..]) == At(nodes[1..], p)
  {
    var q := [p[0] + 1] + p[1..];
    assert q[1..] == p[1..] && nodes[q[0]] == nodes[1..][p[0]];
  }

  /** The position of a rendered card, found by following the branches that render it. */
  lemma {:induction false} RenderedPosition(nodes: seq<TreeNode>, collapsed: set<int>, n: TreeNode) returns (path: seq<nat>)
    requires n in Rendered(nodes, collapsed)
    ensures Shown(nodes, collapsed, path) && At(nodes, path) == Some(n)
  {
    var head := nodes[0];
    var below := if HasChildren(head) && head.id !in collapsed then Rendered(head.children, collapsed) else [];
    assert Rendered(nodes, collapsed) == [head] + below + Rendered(nodes[1..], collapsed);
    if n == head {
      path := [0];
    } else if n in below {
      var p := RenderedPosition(head.children, collapsed, n);
      ShownUnderFirst(nodes, collapsed, p);
      path := [0] + p;
    } else {
      assert n in Rendered(nodes[1..], collapsed);
      var p := RenderedPosition(nodes[1..], collapsed, n);
      ShownInTail(nodes, collapsed, p);
      path := [p[0] + 1] + p[1..];
    }
  }

  /** Every rendered card sits at a position `Shown` accepts. */
  lemma RenderedIsShown(nodes: seq<TreeNode>, collapsed: set<int>, n: TreeNode)
    requires n in Rendered(nodes, collapsed)
    ensures exists path :: Shown(nodes, collapsed, path) && At(nodes, path) == Some(n)
  {
    var path := RenderedPosition(nodes, collapsed, n);
  }
}

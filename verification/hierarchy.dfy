/** The fixed shape of the organisation tree as the chart holds it after `d3.hierarchy`:
    an arena of nodes numbered from 0 (the root), where `kids[k]` lists the children of
    node k in order and `parent[k]` is node k's parent. Expanding and collapsing never
    change this shape; they only decide which child lists are drawn. */
module Hierarchy {
  import opened Optional

  datatype Shape = Shape(kids: seq<seq<nat>>, parent: seq<nat>)

  /** Every non-root node has a smaller parent index: the arena lists parents first. */
  predicate Ordered(sh: Shape) {
    && |sh.kids| == |sh.parent|
    && forall k :: 0 < k < |sh.parent| ==> sh.parent[k] < k
  }

  /** A rooted tree: parent and child links agree, every non-root node is listed by its
      parent exactly once, and the root is nobody's child. */
  predicate WellFormed(sh: Shape) {
    && |sh.kids| > 0
    && Ordered(sh)
    && (forall k :: 0 < k < |sh.parent| ==> k in sh.kids[sh.parent[k]])
    && (forall p, i :: 0 <= p < |sh.kids| && 0 <= i < |sh.kids[p]| ==>
          0 < sh.kids[p][i] < |sh.kids| && sh.parent[sh.kids[p][i]] == p)
    && (forall p, i, j :: 0 <= p < |sh.kids| && 0 <= i < j < |sh.kids[p]| ==>
          sh.kids[p][i] != sh.kids[p][j])
  }

  /** a is k or one of its ancestors. */
  predicate IsAncestor(sh: Shape, a: nat, k: nat)
    requires Ordered(sh) && k < |sh.parent|
    decreases k
  {
    if k <= a then k == a else IsAncestor(sh, a, sh.parent[k])
  }

  /** The distance of node k from the root (d3's `depth`). */
  function Depth(sh: Shape, k: nat): nat
    requires Ordered(sh) && k < |sh.parent|
    decreases k
  {
    if k == 0 then 0 else Depth(sh, sh.parent[k]) + 1
  }

  /** Node k is drawn below node d: `children` (the expanded-children field of each node,
      `None` when the node is collapsed or a leaf) is set on every node of the path from d
      down to k, k itself excluded. */
  predicate ShownFrom(sh: Shape, children: seq<Option<seq<nat>>>, d: nat, k: nat)
    requires Ordered(sh) && k < |sh.parent| && |children| == |sh.parent|
    decreases k
  {
    if k <= d then k == d
    else children[sh.parent[k]].Some? && ShownFrom(sh, children, d, sh.parent[k])
  }

  /** A visible node: reachable from the root through expanded nodes only. */
  predicate Visible(sh: Shape, children: seq<Option<seq<nat>>>, k: nat)
    requires Ordered(sh) && k < |sh.parent| && |children| == |sh.parent|
  {
    ShownFrom(sh, children, 0, k)
  }

  /** The child of a on the path from a down to its descendant k. */
  function Toward(sh: Shape, a: nat, k: nat): (c: nat)
    requires Ordered(sh) && k < |sh.parent| && a < k && IsAncestor(sh, a, k)
    ensures a < c <= k && sh.parent[c] == a && IsAncestor(sh, c, k)
    decreases k
  {
    if sh.parent[k] == a then k
    else
      assert IsAncestor(sh, a, sh.parent[k]);
      Toward(sh, a, sh.parent[k])
  }

  /** k lies under a child c of p from which it is shown: the nodes that
      `p.children.forEach(collapse)` reaches. */
  predicate ShownUnder(sh: Shape, children: seq<Option<seq<nat>>>, p: nat, k: nat)
    requires Ordered(sh) && k < |sh.parent| && |children| == |sh.parent|
  {
    p < k && IsAncestor(sh, p, k) && ShownFrom(sh, children, Toward(sh, p, k), k)
  }

  // ---------------------------------------------------------------------------
  // Lemmas about the shape

  /** Every node of a well-formed tree descends from the root. */
  lemma {:induction false} RootIsAncestor(sh: Shape, k: nat)
    requires WellFormed(sh) && k < |sh.parent|
    ensures IsAncestor(sh, 0, k)
    decreases k
  {
    if k > 0 {
      RootIsAncestor(sh, sh.parent[k]);
    }
  }

  /** An ancestor is never below its descendant. */
  lemma {:induction false} AncestorIsSmaller(sh: Shape, a: nat, k: nat)
    requires Ordered(sh) && k < |sh.parent| && IsAncestor(sh, a, k)
    ensures a <= k
    decreases k
  {
    if k > a {
      AncestorIsSmaller(sh, a, sh.parent[k]);
    }
  }

  /** Below a child c of p, the way from p always goes through c. */
  lemma {:induction false} TowardChild(sh: Shape, p: nat, c: nat, k: nat)
    requires Ordered(sh) && c < |sh.parent| && k < |sh.parent|
    requires p < c && sh.parent[c] == p && IsAncestor(sh, c, k)
    ensures p < k && IsAncestor(sh, p, k) && Toward(sh, p, k) == c
    decreases k
  {
    if k > c {
      TowardChild(sh, p, c, sh.parent[k]);
    }
  }

  /** Only descendants are shown from a node. */
  lemma {:induction false} ShownIsDescendant(sh: Shape, children: seq<Option<seq<nat>>>, d: nat, k: nat)
    requires Ordered(sh) && k < |sh.parent| && |children| == |sh.parent|
    requires ShownFrom(sh, children, d, k)
    ensures IsAncestor(sh, d, k)
    decreases k
  {
    if k > d {
      ShownIsDescendant(sh, children, d, sh.parent[k]);
    }
  }

  /** Whether k is shown from d depends only on the nodes of d's subtree. */
  lemma {:induction false} ShownFrame(sh: Shape, c1: seq<Option<seq<nat>>>, c2: seq<Option<seq<nat>>>, d: nat, k: nat)
    requires Ordered(sh) && k < |sh.parent| && |c1| == |c2| == |sh.parent|
    requires forall m :: 0 <= m < |sh.parent| && IsAncestor(sh, d, m) ==> c1[m].Some? == c2[m].Some?
    ensures ShownFrom(sh, c1, d, k) == ShownFrom(sh, c2, d, k)
    decreases k
  {
    if k > d {
      var p := sh.parent[k];
      ShownFrame(sh, c1, c2, d, p);
      if ShownFrom(sh, c1, d, p) {
        ShownIsDescendant(sh, c1, d, p);
      }
    }
  }

  /** Showing k from d means d is expanded and k is shown from d's child toward k. */
  lemma {:induction false} ShownSplit(sh: Shape, children: seq<Option<seq<nat>>>, d: nat, k: nat)
    requires Ordered(sh) && k < |sh.parent| && |children| == |sh.parent|
    requires d < k && IsAncestor(sh, d, k)
    ensures ShownFrom(sh, children, d, k) == (children[d].Some? && ShownFrom(sh, children, Toward(sh, d, k), k))
    decreases k
  {
    var p := sh.parent[k];
    if p != d {
      ShownSplit(sh, children, d, p);
    }
  }

  /** A collapsed node shows nothing but itself. */
  lemma CollapsedShowsOnlyItself(sh: Shape, children: seq<Option<seq<nat>>>, d: nat, k: nat)
    requires Ordered(sh) && d < |sh.parent| && k < |sh.parent| && |children| == |sh.parent|
    requires children[d].None?
    ensures ShownFrom(sh, children, d, k) <==> k == d
  {
    if k > d && ShownFrom(sh, children, d, k) {
      ShownIsDescendant(sh, children, d, k);
      ShownSplit(sh, children, d, k);
    }
  }

  /** Shown from an expanded node p and strictly below it is the same as shown under p. */
  lemma ShownBelowExpanded(sh: Shape, children: seq<Option<seq<nat>>>, p: nat, k: nat)
    requires Ordered(sh) && p < |sh.parent| && k < |sh.parent| && |children| == |sh.parent|
    requires children[p].Some?
    ensures (k != p && ShownFrom(sh, children, p, k)) <==> ShownUnder(sh, children, p, k)
  {
    if k > p && IsAncestor(sh, p, k) {
      ShownSplit(sh, children, p, k);
    } else if k != p && ShownFrom(sh, children, p, k) {
      ShownIsDescendant(sh, children, p, k);
    }
  }

  /** Opening more nodes never hides a node. */
  lemma {:induction false} ShownMonotone(sh: Shape, c1: seq<Option<seq<nat>>>, c2: seq<Option<seq<nat>>>, d: nat, k: nat)
    requires Ordered(sh) && k < |sh.parent| && |c1| == |c2| == |sh.parent|
    requires forall m :: 0 <= m < |sh.parent| && c1[m].Some? ==> c2[m].Some?
    requires ShownFrom(sh, c1, d, k)
    ensures ShownFrom(sh, c2, d, k)
    decreases k
  {
    if k > d {
      ShownMonotone(sh, c1, c2, d, sh.parent[k]);
    }
  }

  /** When every node that has children is expanded, a node is shown from each of its
      ancestors. */
  lemma {:induction false} FullyOpenShown(sh: Shape, children: seq<Option<seq<nat>>>, d: nat, k: nat)
    requires WellFormed(sh) && k < |sh.parent| && |children| == |sh.parent|
    requires forall m :: 0 <= m < |sh.kids| && sh.kids[m] != [] ==> children[m].Some?
    requires IsAncestor(sh, d, k)
    ensures ShownFrom(sh, children, d, k)
    decreases k
  {
    if k > d {
      var p := sh.parent[k];
      assert k in sh.kids[p];
      FullyOpenShown(sh, children, d, p);
    }
  }
}

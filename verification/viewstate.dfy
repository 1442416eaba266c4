/** The chart's view state: the d3 hierarchy nodes with their two child fields
    (`children` while expanded, `_children` while collapsed), their stable ids and their
    current and previous positions. The nodes live in an arena indexed like the
    `Hierarchy.Shape` they belong to; field `children[k]` is node k's `children`, and
    field `hidden[k]` is node k's `_children`. */
module ViewState {
  import opened Optional
  import opened Hierarchy

  /** The two child fields of a node with children `kids`: a leaf has neither, any other
      node has exactly one of them, holding its whole child list. */
  predicate SlotOk(kids: seq<nat>, children: Option<seq<nat>>, hidden: Option<seq<nat>>) {
    if kids == [] then children.None? && hidden.None?
    else (children == Some(kids) && hidden.None?) || (children.None? && hidden == Some(kids))
  }

  /** The `children` field as `d3.hierarchy` creates it: present exactly when there are
      children. */
  function Opened(kids: seq<nat>): Option<seq<nat>> {
    if kids == [] then None else Some(kids)
  }

  /** What `click` does to a node's (`children`, `_children`) pair. */
  function Toggle(children: Option<seq<nat>>, hidden: Option<seq<nat>>): (r: (Option<seq<nat>>, Option<seq<nat>>))
    ensures r.0.None? || r.1.None?
    ensures children.Some? ==> r.1 == children
    ensures children.None? ==> r.0 == hidden
  {
    if children.Some? then (None, children) else (hidden, None)
  }

  /** Toggling keeps a node's fields well formed, flips an inner node between expanded and
      collapsed, leaves a leaf alone, leaves one field empty, and toggling twice restores
      both fields. */
  lemma ToggleProperties(kids: seq<nat>, c: Option<seq<nat>>, h: Option<seq<nat>>)
    requires SlotOk(kids, c, h)
    ensures var (c', h') := Toggle(c, h);
      && SlotOk(kids, c', h')
      && (c'.None? || h'.None?)
      && (kids != [] ==> (c'.Some? <==> c.None?))
      && (kids == [] ==> (c', h') == (c, h))
      && Toggle(c', h') == (c, h)
  {
  }

  /** `x || 0` for a coordinate that may be undefined. */
  function OrZero(v: Option<real>): (r: real)
    ensures v.Some? ==> r == v.value
    ensures v.None? ==> r == 0.0
  {
    v.GetOr(0.0)
  }

  /** Node k of the drawn tree is not collapsed away by `p.children.forEach(collapse)`
      after the children in `done` have been processed. */
  ghost predicate CollapsedBy(sh: Shape, c0: seq<Option<seq<nat>>>, p: nat, done: seq<nat>, k: nat)
    requires Ordered(sh) && k < |sh.parent| && |c0| == |sh.parent|
  {
    ShownUnder(sh, c0, p, k) && Toward(sh, p, k) in done
  }

  /** Node k has been expanded by `p.children.forEach(expand)` after the children in `done`. */
  ghost predicate ExpandedBy(sh: Shape, p: nat, done: seq<nat>, k: nat)
    requires Ordered(sh) && k < |sh.parent|
  {
    p < k && IsAncestor(sh, p, k) && Toward(sh, p, k) in done
  }

  /** Collapsing the next child c of p, in a state that differs from the starting one only
      on the subtrees already processed, hides exactly the nodes shown below c at the start. */
  lemma CollapseStep(sh: Shape, c0: seq<Option<seq<nat>>>, cur: seq<Option<seq<nat>>>, p: nat, done: seq<nat>, c: nat, k: nat)
    requires WellFormed(sh) && |c0| == |sh.parent| && |cur| == |sh.parent|
    requires p < |sh.parent| && k < |sh.parent| && c in sh.kids[p] && c !in done
    requires forall m :: 0 <= m < |sh.parent| && !CollapsedBy(sh, c0, p, done, m) ==> cur[m] == c0[m]
    ensures c < |sh.parent|
    ensures ShownFrom(sh, cur, c, k) <==> ShownUnder(sh, c0, p, k) && Toward(sh, p, k) == c
  {
    assert c < |sh.parent| && sh.parent[c] == p;
    forall m | 0 <= m < |sh.parent| && IsAncestor(sh, c, m)
      ensures cur[m].Some? == c0[m].Some?
    {
      TowardChild(sh, p, c, m);
    }
    ShownFrame(sh, cur, c0, c, k);
    if ShownFrom(sh, c0, c, k) {
      ShownIsDescendant(sh, c0, c, k);
      TowardChild(sh, p, c, k);
    }
  }

  /** Expanding the next child c of p reaches exactly the descendants of p that lie below c. */
  lemma ExpandStep(sh: Shape, p: nat, c: nat, k: nat)
    requires WellFormed(sh) && p < |sh.parent| && k < |sh.parent| && c in sh.kids[p]
    ensures c < |sh.parent|
    ensures IsAncestor(sh, c, k) <==> p < k && IsAncestor(sh, p, k) && Toward(sh, p, k) == c
  {
    assert c < |sh.parent| && sh.parent[c] == p;
    if IsAncestor(sh, c, k) {
      TowardChild(sh, p, c, k);
    }
  }

  /** The fields (c, h) are the starting fields (c0, h0) with what is shown below the
      children of p in `done` collapsed. */
  ghost predicate CollapsedAfter(sh: Shape, p: nat, done: seq<nat>, c0: seq<Option<seq<nat>>>, h0: seq<Option<seq<nat>>>,
                                 c: seq<Option<seq<nat>>>, h: seq<Option<seq<nat>>>)
    requires Ordered(sh) && |c0| == |h0| == |c| == |h| == |sh.parent|
  {
    forall k :: 0 <= k < |sh.parent| ==>
      && c[k] == (if CollapsedBy(sh, c0, p, done, k) then None else c0[k])
      && h[k] == (if CollapsedBy(sh, c0, p, done, k) && c0[k].Some? then c0[k] else h0[k])
  }

  /** The fields (c, h) are the starting fields (c0, h0) with every node below the children
      of p in `done` expanded. */
  ghost predicate ExpandedAfter(sh: Shape, p: nat, done: seq<nat>, c0: seq<Option<seq<nat>>>, h0: seq<Option<seq<nat>>>,
                                c: seq<Option<seq<nat>>>, h: seq<Option<seq<nat>>>)
    requires Ordered(sh) && |c0| == |h0| == |c| == |h| == |sh.parent|
  {
    forall k :: 0 <= k < |sh.parent| ==>
      && c[k] == (if ExpandedBy(sh, p, done, k) then Opened(sh.kids[k]) else c0[k])
      && h[k] == (if ExpandedBy(sh, p, done, k) then None else h0[k])
  }

  /** One round of `p.children.forEach(collapse)`: collapsing the next child c, which
      turns (c1, h1) into (c2, h2), extends what has been collapsed to `done + [c]`. */
  lemma CollapseEachStep(sh: Shape, p: nat, done: seq<nat>, c: nat,
                         c0: seq<Option<seq<nat>>>, h0: seq<Option<seq<nat>>>,
                         c1: seq<Option<seq<nat>>>, h1: seq<Option<seq<nat>>>,
                         c2: seq<Option<seq<nat>>>, h2: seq<Option<seq<nat>>>)
    requires WellFormed(sh) && p < |sh.parent| && c in sh.kids[p] && c !in done
    requires |c0| == |h0| == |c1| == |h1| == |c2| == |h2| == |sh.parent|
    requires CollapsedAfter(sh, p, done, c0, h0, c1, h1)
    requires c < |sh.parent|
    requires forall k :: 0 <= k < |sh.parent| ==>
      c2[k] == (if ShownFrom(sh, c1, c, k) then None else c1[k])
    requires forall k :: 0 <= k < |sh.parent| ==>
      h2[k] == (if ShownFrom(sh, c1, c, k) && c1[k].Some? then c1[k] else h1[k])
    ensures CollapsedAfter(sh, p, done + [c], c0, h0, c2, h2)
  {
    forall k | 0 <= k < |sh.parent|
      ensures ShownFrom(sh, c1, c, k) <==> ShownUnder(sh, c0, p, k) && Toward(sh, p, k) == c
    {
      CollapseStep(sh, c0, c1, p, done, c, k);
    }
  }

  /** One round of `p.children.forEach(expand)`: expanding the next child c, which turns
      (c1, h1) into (c2, h2), extends what has been expanded to `done + [c]`. */
  lemma ExpandEachStep(sh: Shape, p: nat, done: seq<nat>, c: nat,
                       c0: seq<Option<seq<nat>>>, h0: seq<Option<seq<nat>>>,
                       c1: seq<Option<seq<nat>>>, h1: seq<Option<seq<nat>>>,
                       c2: seq<Option<seq<nat>>>, h2: seq<Option<seq<nat>>>)
    requires WellFormed(sh) && p < |sh.parent| && c in sh.kids[p]
    requires |c0| == |h0| == |c1| == |h1| == |c2| == |h2| == |sh.parent|
    requires ExpandedAfter(sh, p, done, c0, h0, c1, h1)
    requires forall k :: 0 <= k < |sh.parent| ==>
      c2[k] == (if IsAncestor(sh, c, k) then Opened(sh.kids[k]) else c1[k])
    requires forall k :: 0 <= k < |sh.parent| ==>
      h2[k] == (if IsAncestor(sh, c, k) then None else h1[k])
    ensures ExpandedAfter(sh, p, done + [c], c0, h0, c2, h2)
  {
    forall k | 0 <= k < |sh.parent|
      ensures IsAncestor(sh, c, k) <==> p < k && IsAncestor(sh, p, k) && Toward(sh, p, k) == c
    {
      ExpandStep(sh, p, c, k);
    }
  }

  /** Once every child of p is done, the collapse has reached exactly what is shown under p. */
  lemma CollapseEachDone(sh: Shape, p: nat, c0: seq<Option<seq<nat>>>, h0: seq<Option<seq<nat>>>,
                         c: seq<Option<seq<nat>>>, h: seq<Option<seq<nat>>>)
    requires WellFormed(sh) && p < |sh.parent| && |c0| == |h0| == |c| == |h| == |sh.parent|
    requires CollapsedAfter(sh, p, sh.kids[p], c0, h0, c, h)
    ensures forall k :: 0 <= k < |sh.parent| ==>
      c[k] == (if ShownUnder(sh, c0, p, k) then None else c0[k])
    ensures forall k :: 0 <= k < |sh.parent| ==>
      h[k] == (if ShownUnder(sh, c0, p, k) && c0[k].Some? then c0[k] else h0[k])
  {
    forall k | 0 <= k < |sh.parent|
      ensures CollapsedBy(sh, c0, p, sh.kids[p], k) <==> ShownUnder(sh, c0, p, k)
    {
      if ShownUnder(sh, c0, p, k) {
        var t := Toward(sh, p, k);
        assert t in sh.kids[sh.parent[t]];
      }
    }
  }

  /** Once every child of p is done, the expansion has reached exactly the descendants of p. */
  lemma ExpandEachDone(sh: Shape, p: nat, c0: seq<Option<seq<nat>>>, h0: seq<Option<seq<nat>>>,
                       c: seq<Option<seq<nat>>>, h: seq<Option<seq<nat>>>)
    requires WellFormed(sh) && p < |sh.parent| && |c0| == |h0| == |c| == |h| == |sh.parent|
    requires ExpandedAfter(sh, p, sh.kids[p], c0, h0, c, h)
    ensures forall k :: 0 <= k < |sh.parent| ==>
      c[k] == (if p < k && IsAncestor(sh, p, k) then Opened(sh.kids[k]) else c0[k])
    ensures forall k :: 0 <= k < |sh.parent| ==>
      h[k] == (if p < k && IsAncestor(sh, p, k) then None else h0[k])
  {
    forall k | 0 <= k < |sh.parent|
      ensures ExpandedBy(sh, p, sh.kids[p], k) <==> p < k && IsAncestor(sh, p, k)
    {
      if p < k && IsAncestor(sh, p, k) {
        var t := Toward(sh, p, k);
        assert t in sh.kids[sh.parent[t]];
      }
    }
  }

  /** Right after `d3.hierarchy`, every node below the root is shown under it. */
  lemma FreshTreeShownUnderRoot(sh: Shape, full: seq<Option<seq<nat>>>, k: nat)
    requires WellFormed(sh) && |full| == |sh.parent| && 0 < k < |sh.parent|
    requires forall m :: 0 <= m < |sh.kids| ==> full[m] == Opened(sh.kids[m])
    ensures ShownUnder(sh, full, 0, k)
  {
    RootIsAncestor(sh, k);
    FullyOpenShown(sh, full, Toward(sh, 0, k), k);
  }

  /** With the root the only expanded node, exactly the root and its children are visible. */
  lemma OnlyRootExpanded(sh: Shape, children: seq<Option<seq<nat>>>, k: nat)
    requires WellFormed(sh) && |children| == |sh.parent| && k < |sh.parent|
    requires children[0].Some? && forall m :: 0 < m < |sh.parent| ==> children[m].None?
    ensures Visible(sh, children, k) <==> k == 0 || sh.parent[k] == 0
  {
    if k > 0 {
      var p := sh.parent[k];
      assert Visible(sh, children, k) == (children[p].Some? && ShownFrom(sh, children, 0, p));
    }
  }

  /** Collapsing what is shown below each child of the root of a fresh hierarchy leaves
      the root expanded, every other inner node collapsed, and exactly the root and its
      children visible. */
  lemma CollapsedChildrenOfRoot(sh: Shape, full: seq<Option<seq<nat>>>,
                                children: seq<Option<seq<nat>>>, hidden: seq<Option<seq<nat>>>)
    requires WellFormed(sh) && |full| == |sh.kids| && |children| == |sh.kids| && |hidden| == |sh.kids|
    requires forall k :: 0 <= k < |sh.kids| ==> full[k] == Opened(sh.kids[k])
    requires forall k :: 0 <= k < |sh.kids| ==>
      children[k] == (if ShownUnder(sh, full, 0, k) then None else full[k])
    requires forall k :: 0 <= k < |sh.kids| ==>
      hidden[k] == (if ShownUnder(sh, full, 0, k) && full[k].Some? then full[k] else None)
    ensures forall k :: 0 <= k < |sh.kids| ==>
      children[k] == (if k == 0 then Opened(sh.kids[0]) else None)
    ensures forall k :: 0 <= k < |sh.kids| ==>
      hidden[k] == (if k == 0 then None else Opened(sh.kids[k]))
    ensures forall k :: 0 <= k < |sh.kids| ==>
      (Visible(sh, children, k) <==> k == 0 || sh.parent[k] == 0)
  {
    forall k | 0 < k < |sh.kids|
      ensures ShownUnder(sh, full, 0, k)
    {
      FreshTreeShownUnderRoot(sh, full, k);
    }
    if |sh.kids| > 1 {
      RootHasChildren(sh);
      forall k | 0 <= k < |sh.kids|
        ensures Visible(sh, children, k) <==> k == 0 || sh.parent[k] == 0
      {
        OnlyRootExpanded(sh, children, k);
      }
    }
  }

  /** In a tree of more than one node the root has children. */
  lemma RootHasChildren(sh: Shape)
    requires WellFormed(sh) && |sh.kids| > 1
    ensures sh.kids[0] != []
  {
    assert 1 in sh.kids[sh.parent[1]];
  }

  /** The rescaled spread coordinate `d.x * verticalSpacing`. */
  function Across(layoutX: real, verticalSpacing: real): real
  {
    layoutX * verticalSpacing
  }

  /** The rescaled depth coordinate `d.depth * horizontalSpacing`. */
  function Down(depth: nat, horizontalSpacing: real): real
  {
    depth as real * horizontalSpacing
  }

  /** The `children` fields `d3.hierarchy` gives every node. */
  function AllOpened(kids: seq<seq<nat>>): (r: seq<Option<seq<nat>>>)
    ensures |r| == |kids| && forall k :: 0 <= k < |kids| ==> r[k] == Opened(kids[k])
  {
    seq(|kids|, k requires 0 <= k < |kids| => Opened(kids[k]))
  }

  /** A field that no node has set yet. */
  function Undefined<T>(n: nat): (r: seq<Option<T>>)
    ensures |r| == n && forall k :: 0 <= k < n ==> r[k].None?
  {
    seq(n, k => None)
  }

  /** No node has an id yet. */
  function Unassigned(n: nat): (r: seq<nat>)
    ensures |r| == n && forall k :: 0 <= k < n ==> r[k] == 0
  {
    seq(n, k => 0)
  }

  class Tree {
    /** The hierarchy's shape; fixed for the life of the chart. */
    const shape: Shape
    /** `d.children` of every node. */
    var children: seq<Option<seq<nat>>>
    /** `d._children` of every node. */
    var hidden: seq<Option<seq<nat>>>
    /** `d.id` of every node; 0 while unassigned. */
    var id: seq<nat>
    /** The module-wide counter `i` behind `++i`. */
    var counter: nat
    /** Current and previous positions `d.x`, `d.y`, `d.x0`, `d.y0`. */
    var x: seq<Option<real>>
    var y: seq<Option<real>>
    var x0: seq<Option<real>>
    var y0: seq<Option<real>>

    ghost predicate Shaped()
      reads this
    {
      && WellFormed(shape)
      && |children| == |shape.kids| && |hidden| == |shape.kids| && |id| == |shape.kids|
      && |x| == |shape.kids| && |y| == |shape.kids| && |x0| == |shape.kids| && |y0| == |shape.kids|
    }

    /** The child fields are well formed on every node numbered d or above. */
    ghost predicate SlotsOkFrom(d: nat)
      reads this
      requires Shaped()
    {
      forall k :: d <= k < |shape.kids| ==> SlotOk(shape.kids[k], children[k], hidden[k])
    }

    /** Assigned ids are distinct and never exceed the counter. */
    ghost predicate IdsOk()
      reads this
      requires Shaped()
    {
      && (forall k :: 0 <= k < |id| ==> id[k] <= counter)
      && (forall j, k :: 0 <= j < |id| && 0 <= k < |id| && j != k && id[j] != 0 ==> id[j] != id[k])
    }

    ghost predicate Valid()
      reads this
    {
      Shaped() && SlotsOkFrom(0) && IdsOk()
    }

    /** Building the chart: `d3.hierarchy` puts every child list in `children`, then
        `root.children.forEach(collapse)` collapses each child of the root. Only the root
        and its children are visible afterwards. `counter` is the module-wide id counter,
        which is not reset between charts. */
    constructor (sh: Shape, counter: nat)
      requires WellFormed(sh)
      ensures Valid() && shape == sh && this.counter == counter
      ensures forall k :: 0 <= k < |sh.kids| ==>
        children[k] == (if k == 0 then Opened(sh.kids[0]) else None)
      ensures forall k :: 0 <= k < |sh.kids| ==>
        hidden[k] == (if k == 0 then None else Opened(sh.kids[k]))
      ensures forall k :: 0 <= k < |sh.kids| ==>
        (Visible(sh, children, k) <==> k == 0 || sh.parent[k] == 0)
      ensures forall k :: 0 <= k < |sh.kids| ==>
        id[k] == 0 && x[k].None? && y[k].None? && x0[k].None? && y0[k].None?
    {
      var n := |sh.kids|;
      shape := sh;
      children := AllOpened(sh.kids);
      hidden := Undefined(n);
      id := Unassigned(n);
      this.counter := counter;
      x := Undefined(n);
      y := Undefined(n);
      x0 := Undefined(n);
      y0 := Undefined(n);
      new;
      ghost var full := children;
      assert IdsOk();
      if children[0].Some? {
        CollapseEach(0);
        CollapsedChildrenOfRoot(sh, full, children, hidden);
      } else if n > 1 {
        RootHasChildren(sh);
      }
    }

    /** `click(d)`: swaps node d's `children` and `_children`; nothing else changes. */
    method Click(d: nat)
      requires Valid() && d < |shape.kids|
      modifies this`children, this`hidden
      ensures Valid()
      ensures children == old(children)[d := Toggle(old(children[d]), old(hidden[d])).0]
      ensures hidden == old(hidden)[d := Toggle(old(children[d]), old(hidden[d])).1]
    {
      if children[d].Some? {
        hidden := hidden[d := children[d]];
        children := children[d := None];
      } else {
        children := children[d := hidden[d]];
        hidden := hidden[d := None];
      }
    }

    /** `collapse(d)`: every node shown from d, d included, moves its `children` into
        `_children`; nodes that were already collapsed, and everything hidden below them,
        keep their fields. */
    method Collapse(d: nat)
      requires Shaped() && d < |shape.kids| && SlotsOkFrom(d)
      modifies this`children, this`hidden
      ensures Shaped() && SlotsOkFrom(d)
      ensures forall k :: 0 <= k < |shape.kids| ==>
        children[k] == (if ShownFrom(shape, old(children), d, k) then None else old(children[k]))
      ensures forall k :: 0 <= k < |shape.kids| ==>
        hidden[k] == (if ShownFrom(shape, old(children), d, k) && old(children[k]).Some?
                      then old(children[k]) else old(hidden[k]))
      decreases |shape.kids| - d, 1
    {
      if children[d].Some? {
        hidden := hidden[d := children[d]];
        CollapseEach(d);
        children := children[d := None];
        forall k | 0 <= k < |shape.kids|
          ensures (k != d && ShownFrom(shape, old(children), d, k)) <==> ShownUnder(shape, old(children), d, k)
        {
          ShownBelowExpanded(shape, old(children), d, k);
        }
      } else {
        forall k | 0 <= k < |shape.kids|
          ensures ShownFrom(shape, old(children), d, k) <==> k == d
        {
          CollapsedShowsOnlyItself(shape, old(children), d, k);
        }
      }
    }

    /** `p.children.forEach(collapse)` (also `p._children.forEach(...)` inside `collapse`,
        which walks the same list): collapses what is shown below each child of p. Node p
        itself is left alone and may be mid-update, so its fields are not required to be
        well formed. */
    method CollapseEach(p: nat)
      requires Shaped() && p < |shape.kids| && SlotsOkFrom(p + 1)
      modifies this`children, this`hidden
      ensures Shaped() && SlotsOkFrom(p + 1)
      ensures forall k :: 0 <= k < |shape.kids| ==>
        children[k] == (if ShownUnder(shape, old(children), p, k) then None else old(children[k]))
      ensures forall k :: 0 <= k < |shape.kids| ==>
        hidden[k] == (if ShownUnder(shape, old(children), p, k) && old(children[k]).Some?
                      then old(children[k]) else old(hidden[k]))
      decreases |shape.kids| - p, 0
    {
      var cs := shape.kids[p];
      var j := 0;
      while j < |cs|
        invariant 0 <= j <= |cs|
        invariant Shaped() && SlotsOkFrom(p + 1)
        invariant CollapsedAfter(shape, p, cs[..j], old(children), old(hidden), children, hidden)
      {
        var c := cs[j];
        ghost var c1, h1 := children, hidden;
        assert c !in cs[..j];
        assert c < |shape.kids| && shape.parent[c] == p;
        Collapse(c);
        CollapseEachStep(shape, p, cs[..j], c, old(children), old(hidden), c1, h1, children, hidden);
        assert cs[..j + 1] == cs[..j] + [c];
        j := j + 1;
      }
      assert cs[..j] == cs;
      CollapseEachDone(shape, p, old(children), old(hidden), children, hidden);
    }

    /** The inner `expand(d)` of `expandAll`: d and every node below it, shown or not,
        ends up with its whole child list in `children` and no `_children`. */
    method Expand(d: nat)
      requires Shaped() && d < |shape.kids| && SlotsOkFrom(d)
      modifies this`children, this`hidden
      ensures Shaped() && SlotsOkFrom(d)
      ensures forall k :: 0 <= k < |shape.kids| ==>
        children[k] == (if IsAncestor(shape, d, k) then Opened(shape.kids[k]) else old(children[k]))
      ensures forall k :: 0 <= k < |shape.kids| ==>
        hidden[k] == (if IsAncestor(shape, d, k) then None else old(hidden[k]))
      decreases |shape.kids| - d, 1
    {
      if hidden[d].Some? {
        children := children[d := hidden[d]];
        hidden := hidden[d := None];
      }
      if children[d].Some? {
        ExpandEach(d);
      }
      forall k | 0 <= k < |shape.kids| && IsAncestor(shape, d, k) && k != d
        ensures d < k && children[d].Some?
      {
        AncestorIsSmaller(shape, d, k);
        var t := Toward(shape, d, k);
        assert t in shape.kids[shape.parent[t]];
      }
    }

    /** `d.children.forEach(expand)`: expands every node strictly below p. */
    method ExpandEach(p: nat)
      requires Shaped() && p < |shape.kids| && SlotsOkFrom(p + 1)
      modifies this`children, this`hidden
      ensures Shaped() && SlotsOkFrom(p + 1)
      ensures forall k :: 0 <= k < |shape.kids| ==>
        children[k] == (if p < k && IsAncestor(shape, p, k) then Opened(shape.kids[k]) else old(children[k]))
      ensures forall k :: 0 <= k < |shape.kids| ==>
        hidden[k] == (if p < k && IsAncestor(shape, p, k) then None else old(hidden[k]))
      decreases |shape.kids| - p, 0
    {
      var cs := shape.kids[p];
      var j := 0;
      while j < |cs|
        invariant 0 <= j <= |cs|
        invariant Shaped() && SlotsOkFrom(p + 1)
        invariant ExpandedAfter(shape, p, cs[..j], old(children), old(hidden), children, hidden)
      {
        var c := cs[j];
        ghost var c1, h1 := children, hidden;
        assert c < |shape.kids| && shape.parent[c] == p;
        Expand(c);
        ExpandEachStep(shape, p, cs[..j], c, old(children), old(hidden), c1, h1, children, hidden);
        assert cs[..j + 1] == cs[..j] + [c];
        j := j + 1;
      }
      assert cs[..j] == cs;
      ExpandEachDone(shape, p, old(children), old(hidden), children, hidden);
    }

    /** `expandAll`: every node gets its whole child list in `children`, so every node of
        the hierarchy is visible. */
    method ExpandAll()
      requires Valid()
      modifies this`children, this`hidden
      ensures Valid()
      ensures forall k :: 0 <= k < |shape.kids| ==> children[k] == Opened(shape.kids[k]) && hidden[k].None?
      ensures forall k :: 0 <= k < |shape.kids| ==> Visible(shape, children, k)
    {
      Expand(0);
      forall k | 0 <= k < |shape.kids|
        ensures IsAncestor(shape, 0, k)
      {
        RootIsAncestor(shape, k);
      }
      forall k | 0 <= k < |shape.kids|
        ensures Visible(shape, children, k)
      {
        FullyOpenShown(shape, children, 0, k);
      }
    }

    /** `collapseAll`: when the root is expanded, collapses each of its children, so the
        root stays expanded and exactly the root and its children remain visible; when
        the root is collapsed nothing changes. */
    method CollapseAll()
      requires Valid()
      modifies this`children, this`hidden
      ensures Valid()
      ensures forall k :: 0 <= k < |shape.kids| ==>
        children[k] == (if k != 0 && Visible(shape, old(children), k) then None else old(children[k]))
      ensures forall k :: 0 <= k < |shape.kids| ==>
        hidden[k] == (if k != 0 && Visible(shape, old(children), k) && old(children[k]).Some?
                      then old(children[k]) else old(hidden[k]))
      ensures old(children[0]).Some? ==> forall k :: 0 <= k < |shape.kids| ==>
        (Visible(shape, children, k) <==> k == 0 || shape.parent[k] == 0)
    {
      if children[0].Some? {
        CollapseEach(0);
        forall k | 0 <= k < |shape.kids|
          ensures (k != 0 && Visible(shape, old(children), k)) <==> ShownUnder(shape, old(children), 0, k)
        {
          ShownBelowExpanded(shape, old(children), 0, k);
        }
        forall k | 0 < k < |shape.kids|
          ensures Visible(shape, children, k) <==> shape.parent[k] == 0
        {
          var p := shape.parent[k];
          assert Visible(shape, children, k) == (children[p].Some? && Visible(shape, children, p));
          if p != 0 && Visible(shape, children, p) {
            ShownMonotone(shape, children, old(children), 0, p);
            assert children[p].None?;
          }
        }
      } else {
        forall k | 0 <= k < |shape.kids|
          ensures Visible(shape, old(children), k) <==> k == 0
        {
          CollapsedShowsOnlyItself(shape, old(children), 0, k);
        }
      }
    }

    /** The repository's own bookkeeping in `update(source)`, around d3's layout and data
        join. `order` is the layout's list of the visible nodes (`treeData.descendants()`)
        and `layoutX[k]` the layout's spread coordinate for node k. Each visible node is
        placed at depth * horizontalSpacing and layoutX * verticalSpacing, gets an id if it
        has none (`d.id || (d.id = ++i)`), and finally has its position copied into
        `x0`/`y0`. Entering elements start at the source's previous position, an undefined
        coordinate read as 0; exiting elements go to the source's new position. */
    method Update(source: nat, order: seq<nat>, layoutX: seq<real>, horizontalSpacing: real, verticalSpacing: real)
      returns (enterAt: (real, real), exitTo: (Option<real>, Option<real>))
      requires Valid() && source < |shape.kids| && |layoutX| == |shape.kids|
      requires forall k: nat :: k in order <==> k < |shape.kids| && Visible(shape, children, k)
      requires forall i, j :: 0 <= i < j < |order| ==> order[i] != order[j]
      modifies this`x, this`y, this`x0, this`y0, this`id, this`counter
      ensures Valid()
      ensures forall k :: 0 <= k < |shape.kids| && Visible(shape, children, k) ==>
        && x[k] == Some(Across(layoutX[k], verticalSpacing))
        && y[k] == Some(Down(Depth(shape, k), horizontalSpacing))
        && x0[k] == x[k] && y0[k] == y[k]
        && id[k] != 0
      ensures forall k :: 0 <= k < |shape.kids| && !Visible(shape, children, k) ==>
        && x[k] == old(x[k]) && y[k] == old(y[k]) && x0[k] == old(x0[k]) && y0[k] == old(y0[k])
        && id[k] == old(id[k])
      ensures forall k :: 0 <= k < |shape.kids| && old(id[k]) != 0 ==> id[k] == old(id[k])
      ensures forall k :: 0 <= k < |shape.kids| && old(id[k]) == 0 && id[k] != 0 ==> old(counter) < id[k]
      ensures forall j, k ::
        0 <= j < |shape.kids| && 0 <= k < |shape.kids| && j != k &&
        Visible(shape, children, j) && Visible(shape, children, k)
        ==> id[j] != id[k]
      ensures enterAt == (OrZero(old(y0[source])), OrZero(old(x0[source])))
      ensures exitTo == (y[source], x[source])
    {
      assert forall k :: 0 <= k < |shape.kids| ==> (k in order <==> Visible(shape, children, k));
      Place(order, layoutX, horizontalSpacing, verticalSpacing);
      AssignIds(order);
      enterAt := (OrZero(y0[source]), OrZero(x0[source]));
      exitTo := (y[source], x[source]);
      RememberPositions(order);
    }

    /** `nodes.forEach(d => { d.y = d.depth * horizontalSpacing; d.x = d.x * verticalSpacing; })`. */
    method Place(order: seq<nat>, layoutX: seq<real>, horizontalSpacing: real, verticalSpacing: real)
      requires Shaped() && |layoutX| == |shape.kids|
      requires forall k :: k in order ==> k < |shape.kids|
      modifies this`x, this`y
      ensures Shaped()
      ensures forall k :: 0 <= k < |shape.kids| ==>
        if k in order then
          x[k] == Some(Across(layoutX[k], verticalSpacing)) && y[k] == Some(Down(Depth(shape, k), horizontalSpacing))
        else x[k] == old(x[k]) && y[k] == old(y[k])
    {
      var t := 0;
      while t < |order|
        invariant 0 <= t <= |order|
        invariant Shaped()
        invariant forall k :: 0 <= k < |shape.kids| ==>
          x[k] == if k in order[..t] then Some(Across(layoutX[k], verticalSpacing)) else old(x[k])
        invariant forall k :: 0 <= k < |shape.kids| ==>
          y[k] == if k in order[..t] then Some(Down(Depth(shape, k), horizontalSpacing)) else old(y[k])
      {
        var k := order[t];
        assert k in order;
        y := y[k := Some(Down(Depth(shape, k), horizontalSpacing))];
        x := x[k := Some(Across(layoutX[k], verticalSpacing))];
        assert order[..t + 1] == order[..t] + [k];
        t := t + 1;
      }
      assert order[..t] == order;
    }

    /** The data join's key function `d => d.id || (d.id = ++i)`, applied to each node of
        `order`: a node keeps the id it has, and a node without one gets the next value of
        the counter. */
    method AssignIds(order: seq<nat>)
      requires Shaped() && IdsOk()
      requires forall k :: k in order ==> k < |shape.kids|
      modifies this`id, this`counter
      ensures Shaped() && IdsOk() && old(counter) <= counter
      ensures forall k :: 0 <= k < |shape.kids| ==>
        if k in order then
          id[k] != 0 && (old(id[k]) != 0 ==> id[k] == old(id[k])) && (old(id[k]) == 0 ==> old(counter) < id[k])
        else id[k] == old(id[k])
    {
      var t := 0;
      while t < |order|
        invariant 0 <= t <= |order|
        invariant Shaped() && IdsOk() && old(counter) <= counter
        invariant forall k :: 0 <= k < |shape.kids| ==>
          if k in order[..t] then
            id[k] != 0 && (old(id[k]) != 0 ==> id[k] == old(id[k])) && (old(id[k]) == 0 ==> old(counter) < id[k])
          else id[k] == old(id[k])
      {
        var k := order[t];
        assert k in order;
        if id[k] == 0 {
          counter := counter + 1;
          id := id[k := counter];
        }
        assert order[..t + 1] == order[..t] + [k];
        t := t + 1;
      }
      assert order[..t] == order;
    }

    /** `nodes.forEach(d => { d.x0 = d.x; d.y0 = d.y; })`. */
    method RememberPositions(order: seq<nat>)
      requires Shaped()
      requires forall k :: k in order ==> k < |shape.kids|
      modifies this`x0, this`y0
      ensures Shaped()
      ensures forall k :: 0 <= k < |shape.kids| ==>
        if k in order then x0[k] == x[k] && y0[k] == y[k]
        else x0[k] == old(x0[k]) && y0[k] == old(y0[k])
    {
      var t := 0;
      while t < |order|
        invariant 0 <= t <= |order|
        invariant Shaped()
        invariant forall k :: 0 <= k < |shape.kids| ==>
          if k in order[..t] then x0[k] == x[k] && y0[k] == y[k]
          else x0[k] == old(x0[k]) && y0[k] == old(y0[k])
      {
        var k := order[t];
        assert k in order;
        x0 := x0[k := x[k]];
        y0 := y0[k := y[k]];
        assert order[..t + 1] == order[..t] + [k];
        t := t + 1;
      }
      assert order[..t] == order;
    }
  }
}

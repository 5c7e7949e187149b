// Moving an agent through the tree as it moves through the world: the
// per-frame step of the current generation's agent (UpdateAgentInQuadtree) and
// of the intermediate generation's agent (UpdateAgentNode). Both run against
// the tree of QuadtreeNodes; the agent's classifier is the tree's classifier
// applied to the agent's shape.

module Relocation {
  import opened Geometry
  import opened Agents
  import opened QuadtreeArena
  import opened Routing
  import opened Reorganizing
  import opened QuadtreeNodes

  // ---------------------------------------------------------------------------
  // Remove, seen from the stored agents

  /**
   * Remove takes copies of a out of the tree exactly when it reports success,
   * and never touches any other agent's entries.
   */
  lemma {:induction false} RemovedEntries(ns: Arena, geo: Convex, n: nat, a: QtAgent, p: Point, s: ConvexShape)
    requires WellFormed(ns) && n < |ns|
    ensures var r := Removed(ns, geo, n, a, p, s);
      Entries(r.0) <= Entries(ns) &&
      (r.1 <==> Entries(r.0)[a] < Entries(ns)[a]) &&
      (forall b :: b != a ==> Entries(r.0)[b] == Entries(ns)[b])
    decreases |ns| - n
  {
    if Holds(ns[n], a) {
      DroppedEntries(ns, n, a);
    } else if !IsLeaf(ns[n]) {
      var k := ChildIndex(ns, n, p);
      if k >= 0 && geo.shapeVsRect(s, ns[Child(ns, n, k)].boundary) == Fit {
        var c := Child(ns, n, k);
        RemovedEntries(ns, geo, c, a, p, s);
        var (below, found) := Removed(ns, geo, c, a, p, s);
        if found {
          FlaggedEntries(below, n);
        }
      }
    }
  }

  /** Dropping a from the node n that holds it takes copies of a, and only of a, out of the entries. */
  lemma DroppedEntries(ns: Arena, n: nat, a: QtAgent)
    requires n < |ns| && Holds(ns[n], a)
    ensures var ns' := ns[n := Drop(ns[n], a).(organizeTree := true)];
      Entries(ns') <= Entries(ns) && Entries(ns')[a] < Entries(ns)[a] &&
      (forall b :: b != a ==> Entries(ns')[b] == Entries(ns)[b])
  {
    var v := Drop(ns[n], a).(organizeTree := true);
    DropOwn(ns[n], a);
    EntriesChange(ns, n, v, multiset{}, Copies(ns[n], a));
    TakeOut(Entries(ns[n := v]), Entries(ns), Copies(ns[n], a), a);
  }

  /** The copies of a that Drop takes out of a node: one from each list holding it. */
  function Copies(nd: Node, a: QtAgent): multiset<QtAgent> {
    (if a in nd.elements then multiset{a} else multiset{}) +
    (if a in nd.overlapElements then multiset{a} else multiset{})
  }

  lemma DropOwn(nd: Node, a: QtAgent)
    ensures Own(Drop(nd, a).(organizeTree := true)) + Copies(nd, a) == Own(nd)
  {
  }

  lemma TakeOut(x: multiset<QtAgent>, y: multiset<QtAgent>, m: multiset<QtAgent>, a: QtAgent)
    requires x + m == y && m[a] > 0 && forall b :: b != a ==> m[b] == 0
    ensures x <= y && x[a] < y[a] && forall b :: b != a ==> x[b] == y[b]
  {
    assert forall b :: x[b] + m[b] == y[b];
  }

  /** Flagging a node for reorganisation leaves the entries alone. */
  lemma FlaggedEntries(ns: Arena, n: nat)
    requires n < |ns|
    ensures Entries(ns[n := ns[n].(organizeTree := true)]) == Entries(ns)
  {
    EntriesSameOwn(ns, n, ns[n].(organizeTree := true));
  }

  // ---------------------------------------------------------------------------
  // The moves

  /**
   * One move of agent a, centered at p with shape s: Remove from its current
   * node cur, then Add from target on the arena Remove left; before and after
   * are the agent's current node around the Add.
   */
  ghost predicate Moved(ns: Arena, ns': Arena, cap: nat, geo: Convex, a: QtAgent, p: Point, s: ConvexShape,
                        cur: nat, target: nat, r: AddResult, before: Nullable<nat>, after: Nullable<nat>)
    requires WellFormed(ns) && cur < |ns| && target < |ns|
  {
    var mid := Removed(ns, geo, cur, a, p, s).0;
    SameShapeWellFormed(ns, mid);
    Placed(mid, ns', cap, Route(mid, geo, target, p, s), a, r, before, after)
  }

  /**
   * The agent, whose current node was cur, was moved by Remove from cur and
   * Add from target, and the Add ran out of fuel exactly when exhausted.
   */
  ghost predicate MovedBy(ns: Arena, ns': Arena, cap: nat, geo: Convex, a: QtAgent, p: Point, s: ConvexShape,
                          cur: nat, target: nat, exhausted: bool, after: Nullable<nat>)
    requires WellFormed(ns) && cur < |ns| && target < |ns|
  {
    exists r: AddResult :: exhausted == r.StackExhausted? &&
      Moved(ns, ns', cap, geo, a, p, s, cur, target, r, NonNull(cur), after)
  }

  /** Nothing changed: the same arena, the agent still at cur, and no exhaustion. */
  predicate Unmoved(ns: Arena, ns': Arena, cur: nat, exhausted: bool, after: Nullable<nat>) {
    !exhausted && ns' == ns && after == NonNull(cur)
  }

  /** Existing nodes keep their boundaries, and no node disappears. */
  predicate SameBoundaries(ns: Arena, ns': Arena) {
    |ns| <= |ns'| && forall i :: 0 <= i < |ns| ==> ns'[i].boundary == ns[i].boundary
  }

  /** Remove the agent from its current node, then Add it from target. */
  method MoveTo(tree: Quadtree, a: QtAgent, target: nat, fuel: nat) returns (r: AddResult)
    requires tree.Valid() && Balanced(tree.nodes, tree.capacity, {})
    requires a.currentNode.NonNull? && a.currentNode.value < |tree.nodes| && target < |tree.nodes|
    modifies tree, Stored(tree.nodes)`currentNode, a`currentNode
    ensures tree.Valid() && SameBoundaries(old(tree.nodes), tree.nodes)
    ensures r.Done? ==> Balanced(tree.nodes, tree.capacity, {})
    ensures Stored(tree.nodes) <= old(Stored(tree.nodes)) + {a}
    ensures Moved(old(tree.nodes), tree.nodes, tree.capacity, tree.geo, a, a.center, a.shape,
                  old(a.currentNode).value, target, r, old(a.currentNode), a.currentNode)
  {
    var cur := a.currentNode.value;
    ghost var before := tree.nodes;
    ghost var p, s := a.center, a.shape;
    ghost var mid := Removed(before, tree.geo, cur, a, p, s).0;
    RemovalBalanced(before, tree.geo, cur, a, p, s, tree.capacity);
    RemovedEntries(before, tree.geo, cur, a, p, s);
    StoredMono(mid, before);
    assert Stored(mid) <= Stored(before);
    var removed := tree.Remove(cur, a);
    assert tree.nodes == mid;
    r := tree.Add(target, a, fuel, {});
    BoundariesThrough(before, mid, tree.nodes);
    MovedIntro(before, mid, tree.nodes, tree.capacity, tree.geo, a, p, s, cur, target, r, NonNull(cur), a.currentNode);
  }

  /** An Add from target after the Remove from cur is a move. */
  lemma MovedIntro(ns: Arena, mid: Arena, ns': Arena, cap: nat, geo: Convex, a: QtAgent, p: Point, s: ConvexShape,
                   cur: nat, target: nat, r: AddResult, before: Nullable<nat>, after: Nullable<nat>)
    requires WellFormed(ns) && cur < |ns| && target < |ns|
    requires mid == Removed(ns, geo, cur, a, p, s).0 && WellFormed(mid) && |mid| == |ns|
    requires Placed(mid, ns', cap, Route(mid, geo, target, p, s), a, r, before, after)
    ensures Moved(ns, ns', cap, geo, a, p, s, cur, target, r, before, after)
  {
  }

  /** Remove keeps every node's shape and Add only grows the arena, so together they keep boundaries. */
  lemma BoundariesThrough(ns: Arena, mid: Arena, ns': Arena)
    requires SameLinks(ns, mid) && Grown(mid, ns')
    ensures SameBoundaries(ns, ns')
  {
    forall i | 0 <= i < |ns|
      ensures ns'[i].boundary == ns[i].boundary
    {
      assert SameShape(ns[i], mid[i]) && Kept(mid[i], ns'[i]);
    }
  }

  // ---------------------------------------------------------------------------
  // Climbing to a node the shape Fits

  /** The first node of the parent chain starting at p whose boundary the shape Fits, if any. */
  function FitAncestor(ns: Arena, geo: Convex, s: ConvexShape, p: Nullable<nat>): (r: Nullable<nat>)
    requires WellFormed(ns) && (p.NonNull? ==> p.value < |ns|)
    ensures r.NonNull? ==> r.value < |ns| && geo.shapeVsRect(s, ns[r.value].boundary) == Fit
    decreases if p.Null? then 0 else p.value + 1
  {
    if p.Null? then Null
    else if geo.shapeVsRect(s, ns[p.value].boundary) == Fit then p
    else
      assert Linked(ns, p.value);
      FitAncestor(ns, geo, s, ns[p.value].parentNode)
  }

  /**
   * FitAncestor from m answers the deepest node at or above m that the shape
   * Fits: the answer lies above m, and every node above m the shape Fits lies
   * above the answer; no answer means no such node.
   */
  lemma {:induction false} FitAncestorDeepest(ns: Arena, geo: Convex, s: ConvexShape, m: nat)
    requires WellFormed(ns) && m < |ns|
    ensures var r := FitAncestor(ns, geo, s, NonNull(m));
      (r.NonNull? ==> Desc(ns, r.value, m)) &&
      forall q: nat :: q < |ns| && Desc(ns, q, m) && geo.shapeVsRect(s, ns[q].boundary) == Fit ==>
        r.NonNull? && Desc(ns, q, r.value)
    decreases m
  {
    assert Linked(ns, m);
    if geo.shapeVsRect(s, ns[m].boundary) != Fit && ns[m].parentNode.NonNull? {
      FitAncestorDeepest(ns, geo, s, ns[m].parentNode.value);
    }
  }

  /** The parent link of node n, which points below n. */
  function Parent(ns: Arena, n: nat): (p: Nullable<nat>)
    requires WellFormed(ns) && n < |ns|
    ensures p.NonNull? ==> p.value < n
    ensures p.Null? <==> n == Root(ns, n)
  {
    assert Linked(ns, n);
    ns[n].parentNode
  }

  /** Where an agent that overlaps its current node cur goes: the first ancestor it Fits, else the root. */
  function OverlapTarget(ns: Arena, geo: Convex, s: ConvexShape, cur: nat): (t: nat)
    requires WellFormed(ns) && Rooted(ns) && cur < |ns|
    ensures t < |ns|
  {
    match FitAncestor(ns, geo, s, Parent(ns, cur))
    case Null => 0
    case NonNull(t) => t
  }

  /** The Overlap branch's search: climb from the parent of cur until the shape Fits, or past the root. */
  method ClimbToFit(tree: Quadtree, s: ConvexShape, cur: nat) returns (pNode: Nullable<nat>)
    requires tree.Valid() && cur < |tree.nodes|
    ensures pNode == FitAncestor(tree.nodes, tree.geo, s, Parent(tree.nodes, cur))
  {
    pNode := Parent(tree.nodes, cur);
    while pNode.NonNull?
      invariant pNode.NonNull? ==> pNode.value < |tree.nodes|
      invariant FitAncestor(tree.nodes, tree.geo, s, pNode) ==
                FitAncestor(tree.nodes, tree.geo, s, Parent(tree.nodes, cur))
      decreases if pNode.Null? then 0 else pNode.value + 1
    {
      if tree.geo.shapeVsRect(s, tree.nodes[pNode.value].boundary) == Fit {
        break;
      }
      assert Linked(tree.nodes, pNode.value);
      pNode := tree.nodes[pNode.value].parentNode;
    }
  }

  /** The Overlap and None branches: Remove, then Add from the first ancestor the shape Fits, or from the root. */
  method MoveUp(tree: Quadtree, a: QtAgent, result: CollisionResult, fuel: nat) returns (exhausted: bool)
    requires tree.Valid() && Balanced(tree.nodes, tree.capacity, {}) && result != Fit
    requires a.currentNode.NonNull? && a.currentNode.value < |tree.nodes|
    modifies tree, Stored(tree.nodes)`currentNode, a`currentNode
    ensures tree.Valid() && (!exhausted ==> Balanced(tree.nodes, tree.capacity, {}))
    ensures var cur := old(a.currentNode).value;
      var target := if result == None then 0 else OverlapTarget(old(tree.nodes), tree.geo, a.shape, cur);
      MovedBy(old(tree.nodes), tree.nodes, tree.capacity, tree.geo, a, a.center, a.shape,
              cur, target, exhausted, a.currentNode)
  {
    var cur := a.currentNode.value;
    var target: nat;
    if result == Overlap {
      var pNode := ClimbToFit(tree, a.shape, cur);
      if pNode.Null? {
        target := tree.RootQuadtree(cur);
      } else {
        target := pNode.value;
      }
    } else {
      target := tree.RootQuadtree(cur);
    }
    var r := MoveTo(tree, a, target, fuel);
    exhausted := r.StackExhausted?;
  }

  // ---------------------------------------------------------------------------
  // The Fit branch of the current generation

  /** The shape Fits child i of the internal node n. */
  ghost predicate FitsChild(ns: Arena, geo: Convex, s: ConvexShape, n: nat, i: nat)
    requires WellFormed(ns) && n < |ns| && !IsLeaf(ns[n]) && i < 4
  {
    geo.shapeVsRect(s, ns[Child(ns, n, i)].boundary) == Fit
  }

  /** Child j of n is the only child the shape Fits. */
  ghost predicate OnlyFits(ns: Arena, geo: Convex, s: ConvexShape, n: nat, j: nat)
    requires WellFormed(ns) && n < |ns| && !IsLeaf(ns[n]) && j < 4
  {
    FitsChild(ns, geo, s, n, j) && forall i :: 0 <= i < 4 && i != j ==> !FitsChild(ns, geo, s, n, i)
  }

  /** The shape Fits none of the first k children of n. */
  ghost predicate NoneFits(ns: Arena, geo: Convex, s: ConvexShape, n: nat, k: nat)
    requires WellFormed(ns) && n < |ns| && !IsLeaf(ns[n]) && k <= 4
  {
    forall i :: 0 <= i < k ==> !FitsChild(ns, geo, s, n, i)
  }

  /**
   * For every child of the internal node cur that the shape Fits, in order:
   * Remove from wherever the agent currently is, then Add from that child.
   * Nothing happens when it Fits no child; when it Fits exactly one, that is
   * one move into it.
   */
  method MoveIntoFittingChildren(tree: Quadtree, a: QtAgent, cur: nat, fuel: nat) returns (exhausted: bool)
    requires tree.Valid() && Balanced(tree.nodes, tree.capacity, {})
    requires cur < |tree.nodes| && !IsLeaf(tree.nodes[cur]) && a.currentNode == NonNull(cur)
    modifies tree, Stored(tree.nodes)`currentNode, a`currentNode
    ensures tree.Valid() && (!exhausted ==> Balanced(tree.nodes, tree.capacity, {}))
    ensures NoneFits(old(tree.nodes), tree.geo, a.shape, cur, 4) ==>
      Unmoved(old(tree.nodes), tree.nodes, cur, exhausted, a.currentNode)
    ensures forall j :: 0 <= j < 4 && OnlyFits(old(tree.nodes), tree.geo, a.shape, cur, j) ==>
      MovedBy(old(tree.nodes), tree.nodes, tree.capacity, tree.geo, a, a.center, a.shape,
              cur, Child(old(tree.nodes), cur, j), exhausted, a.currentNode)
  {
    ghost var ns := tree.nodes;
    var children := tree.nodes[cur].children.value;
    assert Linked(ns, cur);
    exhausted := false;
    var k := 0;
    while k < 4
      invariant 0 <= k <= 4 && tree.Valid() && Balanced(tree.nodes, tree.capacity, {})
      invariant SameBoundaries(ns, tree.nodes)
      invariant Stored(tree.nodes) <= old(Stored(tree.nodes)) + {a}
      invariant !exhausted && Progress(ns, tree.nodes, tree.capacity, tree.geo, a, a.center, a.shape, cur, k, a.currentNode)
    {
      var c := children[k];
      assert c == Child(ns, cur, k);
      var stop;
      exhausted, stop := IntoChild(tree, a, cur, k, c, fuel, ns);
      if stop {
        return;
      }
      k := k + 1;
    }
    ProgressDone(ns, tree.nodes, tree.capacity, tree.geo, a, a.center, a.shape, cur, a.currentNode);
  }

  /** One turn of MoveIntoFittingChildren's loop, for child k of cur; stop ends the loop early. */
  method IntoChild(tree: Quadtree, a: QtAgent, cur: nat, k: nat, c: nat, fuel: nat, ghost ns: Arena)
    returns (exhausted: bool, stop: bool)
    requires tree.Valid() && Balanced(tree.nodes, tree.capacity, {})
    requires WellFormed(ns) && cur < |ns| && !IsLeaf(ns[cur]) && k < 4 && c == Child(ns, cur, k)
    requires SameBoundaries(ns, tree.nodes)
    requires Progress(ns, tree.nodes, tree.capacity, tree.geo, a, a.center, a.shape, cur, k, a.currentNode)
    modifies tree, Stored(tree.nodes)`currentNode, a`currentNode
    ensures tree.Valid() && SameBoundaries(ns, tree.nodes)
    ensures Stored(tree.nodes) <= old(Stored(tree.nodes)) + {a}
    ensures !stop ==> !exhausted && Balanced(tree.nodes, tree.capacity, {})
    ensures !stop ==>
      Progress(ns, tree.nodes, tree.capacity, tree.geo, a, a.center, a.shape, cur, k + 1, a.currentNode)
    ensures stop && !exhausted ==> Balanced(tree.nodes, tree.capacity, {})
    ensures stop ==> !NoneFits(ns, tree.geo, a.shape, cur, 4)
    ensures stop ==> forall j :: 0 <= j < 4 && OnlyFits(ns, tree.geo, a.shape, cur, j) ==>
      MovedBy(ns, tree.nodes, tree.capacity, tree.geo, a, a.center, a.shape,
              cur, Child(ns, cur, j), exhausted, a.currentNode)
  {
    exhausted, stop := false, false;
    if tree.geo.shapeVsRect(a.shape, tree.nodes[c].boundary) == Fit {
      assert FitsChild(ns, tree.geo, a.shape, cur, k);
      if a.currentNode.Null? || a.currentNode.value >= |tree.nodes| {
        // Only reachable after an earlier move in this loop, when the shape
        // Fits two children.
        return false, true;
      }
      ghost var before, curBefore := tree.nodes, a.currentNode;
      var r := MoveTo(tree, a, c, fuel);
      FitStep(ns, before, tree.nodes, tree.capacity, tree.geo, a, a.center, a.shape, cur, k, r,
              curBefore, a.currentNode);
      if r.StackExhausted? {
        return true, true;
      }
    } else {
      NoFitStep(ns, tree.nodes, tree.capacity, tree.geo, a, a.center, a.shape, cur, k, a.currentNode);
    }
  }

  /**
   * Where MoveIntoFittingChildren stands after the first k children of cur:
   * nothing has changed while the shape Fit none of them, and when it Fits
   * exactly one child among them, the agent was moved into it.
   */
  ghost predicate Progress(ns: Arena, ns': Arena, cap: nat, geo: Convex, a: QtAgent, p: Point, s: ConvexShape,
                           cur: nat, k: nat, after: Nullable<nat>)
    requires WellFormed(ns) && cur < |ns| && !IsLeaf(ns[cur]) && k <= 4
  {
    (NoneFits(ns, geo, s, cur, k) ==> Unmoved(ns, ns', cur, false, after)) &&
    forall j :: 0 <= j < k && OnlyFits(ns, geo, s, cur, j) ==>
      MovedBy(ns, ns', cap, geo, a, p, s, cur, Child(ns, cur, j), false, after)
  }

  /** One move of MoveIntoFittingChildren, into child k: it settles which child the shape Fits alone. */
  lemma FitStep(ns: Arena, before: Arena, ns': Arena, cap: nat, geo: Convex, a: QtAgent, p: Point, s: ConvexShape,
                cur: nat, k: nat, r: AddResult, curBefore: Nullable<nat>, curAfter: Nullable<nat>)
    requires WellFormed(ns) && cur < |ns| && !IsLeaf(ns[cur]) && k < 4 && FitsChild(ns, geo, s, cur, k)
    requires Progress(ns, before, cap, geo, a, p, s, cur, k, curBefore)
    requires WellFormed(before) && curBefore.NonNull? && curBefore.value < |before| && Child(ns, cur, k) < |before|
    requires Moved(before, ns', cap, geo, a, p, s, curBefore.value, Child(ns, cur, k), r, curBefore, curAfter)
    ensures r.Done? ==> Progress(ns, ns', cap, geo, a, p, s, cur, k + 1, curAfter)
    ensures !NoneFits(ns, geo, s, cur, 4)
    ensures forall j :: 0 <= j < 4 && OnlyFits(ns, geo, s, cur, j) ==>
      j <= k && MovedBy(ns, ns', cap, geo, a, p, s, cur, Child(ns, cur, j), r.StackExhausted?, curAfter)
  {
  }

  /** After all four children, Progress is MoveIntoFittingChildren's outcome without exhaustion. */
  lemma ProgressDone(ns: Arena, ns': Arena, cap: nat, geo: Convex, a: QtAgent, p: Point, s: ConvexShape,
                     cur: nat, after: Nullable<nat>)
    requires WellFormed(ns) && cur < |ns| && !IsLeaf(ns[cur])
    requires Progress(ns, ns', cap, geo, a, p, s, cur, 4, after)
    ensures NoneFits(ns, geo, s, cur, 4) ==> Unmoved(ns, ns', cur, false, after)
    ensures forall j :: 0 <= j < 4 && OnlyFits(ns, geo, s, cur, j) ==>
      MovedBy(ns, ns', cap, geo, a, p, s, cur, Child(ns, cur, j), false, after)
  {
  }

  /** A child the shape does not Fit changes nothing. */
  lemma NoFitStep(ns: Arena, ns': Arena, cap: nat, geo: Convex, a: QtAgent, p: Point, s: ConvexShape,
                  cur: nat, k: nat, after: Nullable<nat>)
    requires WellFormed(ns) && cur < |ns| && !IsLeaf(ns[cur]) && k < 4 && !FitsChild(ns, geo, s, cur, k)
    requires Progress(ns, ns', cap, geo, a, p, s, cur, k, after)
    ensures Progress(ns, ns', cap, geo, a, p, s, cur, k + 1, after)
  {
  }

  // ---------------------------------------------------------------------------
  // The per-frame steps

  /**
   * What one step does to an agent of the current generation that moved and
   * whose current node is cur, by its classification against cur: on Fit,
   * nothing at a leaf or when it Fits no child, and one move into the child
   * when it Fits exactly one; on Overlap, one move to the first ancestor it
   * Fits, or to the root; on None, one move to the root.
   */
  ghost predicate Relocated(ns: Arena, ns': Arena, cap: nat, geo: Convex, a: QtAgent, p: Point, s: ConvexShape,
                            cur: nat, exhausted: bool, after: Nullable<nat>)
    requires WellFormed(ns) && Rooted(ns) && cur < |ns|
  {
    match geo.shapeVsRect(s, ns[cur].boundary)
    case Fit =>
      (IsLeaf(ns[cur]) || NoneFits(ns, geo, s, cur, 4) ==> Unmoved(ns, ns', cur, exhausted, after)) &&
      (!IsLeaf(ns[cur]) ==> forall j :: 0 <= j < 4 && OnlyFits(ns, geo, s, cur, j) ==>
         MovedBy(ns, ns', cap, geo, a, p, s, cur, Child(ns, cur, j), exhausted, after))
    case Overlap =>
      MovedBy(ns, ns', cap, geo, a, p, s, cur, OverlapTarget(ns, geo, s, cur), exhausted, after)
    case None =>
      MovedBy(ns, ns', cap, geo, a, p, s, cur, 0, exhausted, after)
  }

  /**
   * UpdateAgentInQuadtree of the current generation: nothing happens unless
   * the agent moved since the last step; then an agent in the tree is
   * relocated from its current node as Relocated says, and the new position
   * becomes the last one, in the tree or not.
   */
  method UpdateAgentInQuadtree(tree: Quadtree, a: QtAgent, fuel: nat) returns (exhausted: bool)
    requires tree.Valid() && Balanced(tree.nodes, tree.capacity, {})
    requires a.currentNode.NonNull? ==> a.currentNode.value < |tree.nodes|
    modifies tree, Stored(tree.nodes)`currentNode, a`currentNode, a`lastPosition
    ensures tree.Valid() && (!exhausted ==> Balanced(tree.nodes, tree.capacity, {}))
    ensures a.lastPosition == a.newPosition
    ensures old(a.lastPosition) == a.newPosition || old(a.currentNode).Null? ==>
      !exhausted && tree.nodes == old(tree.nodes) && a.currentNode == old(a.currentNode)
    ensures old(a.lastPosition) != a.newPosition && old(a.currentNode).NonNull? ==>
      Relocated(old(tree.nodes), tree.nodes, tree.capacity, tree.geo, a, a.center, a.shape,
                old(a.currentNode).value, exhausted, a.currentNode)
  {
    exhausted := false;
    if a.lastPosition != a.newPosition {
      if a.currentNode.NonNull? {
        var cur := a.currentNode.value;
        var result := tree.geo.shapeVsRect(a.shape, tree.nodes[cur].boundary);
        if result == Fit {
          if !IsLeaf(tree.nodes[cur]) {
            exhausted := MoveIntoFittingChildren(tree, a, cur, fuel);
          }
        } else {
          exhausted := MoveUp(tree, a, result, fuel);
        }
      }
      a.lastPosition := a.newPosition;
    }
  }

  /** The agent's center lies in child i of the internal node n, and its shape Fits that child. */
  ghost predicate CenterFitsChild(ns: Arena, geo: Convex, p: Point, s: ConvexShape, n: nat, i: nat)
    requires WellFormed(ns) && n < |ns| && !IsLeaf(ns[n]) && i < 4
  {
    ContainPoint2D(ns[Child(ns, n, i)].boundary, p) && FitsChild(ns, geo, s, n, i)
  }

  /**
   * What one step does to an agent of the intermediate generation that moved
   * and whose current node is cur: on Fit, when some child contains its
   * center and the shape Fits that child, it is removed from cur and added
   * again from cur itself, and otherwise nothing happens; on Overlap and None,
   * as in the current generation.
   */
  ghost predicate RelocatedNode(ns: Arena, ns': Arena, cap: nat, geo: Convex, a: QtAgent, p: Point, s: ConvexShape,
                                cur: nat, exhausted: bool, after: Nullable<nat>)
    requires WellFormed(ns) && Rooted(ns) && cur < |ns|
  {
    match geo.shapeVsRect(s, ns[cur].boundary)
    case Fit =>
      if !IsLeaf(ns[cur]) && exists i :: 0 <= i < 4 && CenterFitsChild(ns, geo, p, s, cur, i) then
        MovedBy(ns, ns', cap, geo, a, p, s, cur, cur, exhausted, after)
      else Unmoved(ns, ns', cur, exhausted, after)
    case Overlap =>
      MovedBy(ns, ns', cap, geo, a, p, s, cur, OverlapTarget(ns, geo, s, cur), exhausted, after)
    case None =>
      MovedBy(ns, ns', cap, geo, a, p, s, cur, 0, exhausted, after)
  }

  /**
   * UpdateAgentNode of the intermediate generation: as UpdateAgentInQuadtree,
   * except that on Fit into an internal node the agent is re-added from its
   * current node, once, when some child contains its center and its shape
   * Fits that child.
   */
  method UpdateAgentNode(tree: Quadtree, a: QtAgent, fuel: nat) returns (exhausted: bool)
    requires tree.Valid() && Balanced(tree.nodes, tree.capacity, {})
    requires a.currentNode.NonNull? ==> a.currentNode.value < |tree.nodes|
    modifies tree, Stored(tree.nodes)`currentNode, a`currentNode, a`lastPosition
    ensures tree.Valid() && (!exhausted ==> Balanced(tree.nodes, tree.capacity, {}))
    ensures a.lastPosition == a.newPosition
    ensures old(a.lastPosition) == a.newPosition || old(a.currentNode).Null? ==>
      !exhausted && tree.nodes == old(tree.nodes) && a.currentNode == old(a.currentNode)
    ensures old(a.lastPosition) != a.newPosition && old(a.currentNode).NonNull? ==>
      RelocatedNode(old(tree.nodes), tree.nodes, tree.capacity, tree.geo, a, a.center, a.shape,
                    old(a.currentNode).value, exhausted, a.currentNode)
  {
    exhausted := false;
    if a.lastPosition != a.newPosition {
      if a.currentNode.NonNull? {
        var cur := a.currentNode.value;
        var result := tree.geo.shapeVsRect(a.shape, tree.nodes[cur].boundary);
        if result == Fit {
          if !IsLeaf(tree.nodes[cur]) {
            var found := SomeChildFitsAtCenter(tree, a, cur);
            if found {
              var r := MoveTo(tree, a, cur, fuel);
              exhausted := r.StackExhausted?;
            }
          }
        } else {
          exhausted := MoveUp(tree, a, result, fuel);
        }
      }
      a.lastPosition := a.newPosition;
    }
  }

  /** UpdateAgentNode's scan of the children, stopping at the first that contains the center and that the shape Fits. */
  method SomeChildFitsAtCenter(tree: Quadtree, a: QtAgent, cur: nat) returns (found: bool)
    requires tree.Valid() && cur < |tree.nodes| && !IsLeaf(tree.nodes[cur])
    ensures found <==> exists i :: 0 <= i < 4 && CenterFitsChild(tree.nodes, tree.geo, a.center, a.shape, cur, i)
  {
    var children := tree.nodes[cur].children.value;
    assert Linked(tree.nodes, cur);
    var k := 0;
    while k < 4
      invariant 0 <= k <= 4
      invariant forall i :: 0 <= i < k ==> !CenterFitsChild(tree.nodes, tree.geo, a.center, a.shape, cur, i)
    {
      var c := children[k];
      assert c == Child(tree.nodes, cur, k);
      if ContainPoint2D(tree.nodes[c].boundary, a.center) &&
         tree.geo.shapeVsRect(a.shape, tree.nodes[c].boundary) == Fit {
        assert CenterFitsChild(tree.nodes, tree.geo, a.center, a.shape, cur, k);
        return true;
      }
      k := k + 1;
    }
    return false;
  }

  /** The current generation's per-frame Update: take the agent's new position, then UpdateAgentInQuadtree. */
  method Update(tree: Quadtree, a: QtAgent, position: Point, fuel: nat) returns (exhausted: bool)
    requires tree.Valid() && Balanced(tree.nodes, tree.capacity, {})
    requires a.currentNode.NonNull? ==> a.currentNode.value < |tree.nodes|
    modifies tree, Stored(tree.nodes)`currentNode, a`currentNode, a`lastPosition, a`newPosition
    ensures tree.Valid() && (!exhausted ==> Balanced(tree.nodes, tree.capacity, {}))
    ensures a.newPosition == position && a.lastPosition == position
    ensures old(a.lastPosition) == position || old(a.currentNode).Null? ==>
      !exhausted && tree.nodes == old(tree.nodes) && a.currentNode == old(a.currentNode)
    ensures old(a.lastPosition) != position && old(a.currentNode).NonNull? ==>
      Relocated(old(tree.nodes), tree.nodes, tree.capacity, tree.geo, a, a.center, a.shape,
                old(a.currentNode).value, exhausted, a.currentNode)
  {
    a.RefreshPosition(position);
    exhausted := UpdateAgentInQuadtree(tree, a, fuel);
  }

  /** The intermediate generation's per-frame Update: take the agent's new position, then UpdateAgentNode. */
  method UpdateIntermediate(tree: Quadtree, a: QtAgent, position: Point, fuel: nat) returns (exhausted: bool)
    requires tree.Valid() && Balanced(tree.nodes, tree.capacity, {})
    requires a.currentNode.NonNull? ==> a.currentNode.value < |tree.nodes|
    modifies tree, Stored(tree.nodes)`currentNode, a`currentNode, a`lastPosition, a`newPosition
    ensures tree.Valid() && (!exhausted ==> Balanced(tree.nodes, tree.capacity, {}))
    ensures a.newPosition == position && a.lastPosition == position
    ensures old(a.lastPosition) == position || old(a.currentNode).Null? ==>
      !exhausted && tree.nodes == old(tree.nodes) && a.currentNode == old(a.currentNode)
    ensures old(a.lastPosition) != position && old(a.currentNode).NonNull? ==>
      RelocatedNode(old(tree.nodes), tree.nodes, tree.capacity, tree.geo, a, a.center, a.shape,
                    old(a.currentNode).value, exhausted, a.currentNode)
  {
    a.RefreshPosition(position);
    exhausted := UpdateAgentNode(tree, a, fuel);
  }
}

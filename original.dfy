// The first-generation quadtree node, where it differs from the later ones:
// Add re-adds the elements of a leaf that overflows without a fallback to the
// root and tells the agent nothing; Split always builds a fresh set of
// children; FindNode follows the agent's center alone; FindElements searches
// only nodes containing the agent's center. TotalElements, IndexOfNode,
// rootQuadtree and QueryElements do what the later generations' members of
// the same names do.

module OriginalTree {
  import opened Geometry
  import opened Agents
  import opened QuadtreeArena
  import opened Routing
  import opened Counting
  import opened QuadtreeNodes
  import RangeQueries

  /**
   * What Add did with agent a, given where its routing put it: nothing when
   * it was refused; appended to the overlap list of the internal node t; appended
   * to the elements of leaf t when t had room; otherwise t split and holds no
   * elements any more, unless the fuel ran out.
   */
  ghost predicate Landed(ns: Arena, ns': Arena, cap: nat, place: Placement, a: QtAgent, r: AddResult) {
    match place
    case Rejected =>
      r == Done(false)
    case StoreOverlap(t) =>
      t < |ns| && r == Done(true) &&
      ns' == ns[t := ns[t].(overlapElements := ns[t].overlapElements + [a])]
    case StoreElement(t) =>
      t < |ns| &&
      if |ns[t].elements| < cap then
        r == Done(true) && ns' == ns[t := ns[t].(elements := ns[t].elements + [a])]
      else
        t < |ns'| && r != Done(false) && (r.Done? ==> !IsLeaf(ns'[t]) && ns'[t].elements == [])
  }

  class OriginalQuadtree {
    var nodes: Arena
    /** How many elements a leaf may hold before it splits (inclusive). */
    const capacity: nat
    /** The agents' classification of their shapes against a boundary. */
    const geo: Convex

    ghost predicate Valid()
      reads this
    {
      WellFormed(nodes) && Rooted(nodes)
    }

    /** createRootQuadtree: a single empty leaf covering the given boundary. */
    constructor (boundary: Rect, capacity: nat, geo: Convex)
      ensures Valid() && nodes == [InitNode(Null, 0, boundary)]
      ensures this.capacity == capacity && this.geo == geo
      ensures Balanced(nodes, capacity, {}) && Entries(nodes) == multiset{}
    {
      nodes := [InitNode(Null, 0, boundary)];
      this.capacity := capacity;
      this.geo := geo;
      new;
      assert Linked(nodes, 0);
      assert Entries(nodes) == EntriesBelow(nodes, 0) + Own(nodes[0]);
    }

    /**
     * Split: node n gets four new empty children, the quadrants of its
     * boundary in the order NW, NE, SE, SW, one level deeper, whether or
     * not it had children before.
     */
    method Split(n: nat)
      requires Valid() && n < |nodes|
      modifies this
      ensures Valid() && Entries(nodes) == old(Entries(nodes))
      ensures nodes == SplitAt(old(nodes), n)
    {
      var b := |nodes|;
      SplitWellFormed(nodes, n);
      nodes := nodes[n := nodes[n].(children := NonNull([b, b + 1, b + 2, b + 3]))] +
               EmptyNodes(4, n, nodes[n].depthIndex + 1, nodes[n].boundary);
    }

    /**
     * Add from node n. A null agent is refused. An internal node routes the
     * agent by the first child containing its center: refused when there is
     * none, passed down on Fit, kept in the overlap list on Overlap, refused
     * on None. A leaf appends it; a leaf that then holds more than capacity
     * elements splits, hands every element to Add from itself again, ignoring
     * the answer, and ends up with no elements: an element that Add refuses
     * there is dropped.
     */
    method Add(n: nat, a: QtAgent?, fuel: nat, ghost pending: set<nat>) returns (r: AddResult)
      requires Valid() && n < |nodes| && Balanced(nodes, capacity, pending)
      modifies this
      ensures Valid() && Grown(old(nodes), nodes) && SameBookkeeping(old(nodes), nodes)
      ensures r.Done? ==> Balanced(nodes, capacity, pending)
      ensures r.Done? ==> Entries(nodes) <= With(old(Entries(nodes)), a)
      ensures r == Done(false) ==> nodes == old(nodes)
      ensures a == null ==> r == Done(false)
      ensures a != null ==> Landed(old(nodes), nodes, capacity, Route(old(nodes), geo, n, a.center, a.shape), a, r)
      decreases fuel, 1, 0, |nodes| - n, 1
    {
      if a == null {
        return Done(false);
      }
      if !IsLeaf(nodes[n]) {
        r := AddInternal(n, a, fuel, pending);
        return;
      }
      assert Route(nodes, geo, n, a.center, a.shape) == StoreElement(n);
      r := AddToLeaf(n, a, fuel, pending);
    }

    /**
     * Add's branch for an internal node n: route a by the first child
     * containing its center and the classifier's answer for that child.
     */
    method AddInternal(n: nat, a: QtAgent, fuel: nat, ghost pending: set<nat>) returns (r: AddResult)
      requires Valid() && n < |nodes| && !IsLeaf(nodes[n]) && Balanced(nodes, capacity, pending)
      modifies this
      ensures Valid() && Grown(old(nodes), nodes) && SameBookkeeping(old(nodes), nodes)
      ensures r.Done? ==> Balanced(nodes, capacity, pending)
      ensures r.Done? ==> Entries(nodes) <= old(Entries(nodes)) + multiset{a}
      ensures r == Done(false) ==> nodes == old(nodes)
      ensures Landed(old(nodes), nodes, capacity, Route(old(nodes), geo, n, a.center, a.shape), a, r)
      decreases fuel, 1, 0, |nodes| - n, 0
    {
      var k := ChildIndex(nodes, n, a.center);
      if k < 0 {
        return Done(false);
      }
      var c := Child(nodes, n, k);
      match geo.shapeVsRect(a.shape, nodes[c].boundary) {
        case Fit =>
          assert Route(nodes, geo, n, a.center, a.shape) == Route(nodes, geo, c, a.center, a.shape);
          r := Add(c, a, fuel, pending);
        case Overlap =>
          assert Route(nodes, geo, n, a.center, a.shape) == StoreOverlap(n);
          var v := nodes[n].(overlapElements := nodes[n].overlapElements + [a]);
          PutEntry(nodes, n, v, a);
          BalancedUpdate(nodes, n, v, capacity, pending);
          nodes := nodes[n := v];
          r := Done(true);
        case None =>
          r := Done(false);
      }
    }

    /**
     * Add's leaf branch: append to the elements of leaf n, and when the leaf
     * then holds more than capacity elements, split and redistribute.
     */
    method AddToLeaf(n: nat, a: QtAgent, fuel: nat, ghost pending: set<nat>) returns (r: AddResult)
      requires Valid() && n < |nodes| && IsLeaf(nodes[n]) && Balanced(nodes, capacity, pending)
      modifies this
      ensures Valid() && Grown(old(nodes), nodes) && SameBookkeeping(old(nodes), nodes)
      ensures r.Done? ==> Balanced(nodes, capacity, pending) && Entries(nodes) <= old(Entries(nodes)) + multiset{a}
      ensures r != Done(false)
      ensures if |old(nodes)[n].elements| < capacity then
          r == Done(true) && nodes == old(nodes)[n := old(nodes)[n].(elements := old(nodes)[n].elements + [a])]
        else
          r.Done? ==> !IsLeaf(nodes[n]) && nodes[n].elements == []
      decreases fuel, 1, 0, 0
    {
      var v := nodes[n].(elements := nodes[n].elements + [a]);
      PutEntry(nodes, n, v, a);
      Unbalance(nodes, n, v, capacity, pending);
      if |v.elements| <= capacity {
        BalancedUpdate(nodes, n, v, capacity, pending);
      }
      nodes := nodes[n := v];
      if |nodes[n].elements| <= capacity {
        return Done(true);
      }
      if fuel == 0 {
        return StackExhausted;
      }
      ghost var appended := nodes;
      r := Distribute(n, fuel - 1, pending);
      GrownTransitive(old(nodes), appended, nodes);
      BookkeepingTransitive(old(nodes), appended, nodes);
    }

    /**
     * The overflow branch of Add on leaf n: split it, hand each of its
     * elements to Add from n again, and clear its elements.
     */
    method Distribute(n: nat, fuel: nat, ghost pending: set<nat>) returns (r: AddResult)
      requires Valid() && n < |nodes| && IsLeaf(nodes[n]) && n !in pending
      requires BalancedBut(nodes, capacity, pending, n)
      modifies this
      ensures Valid() && Grown(old(nodes), nodes) && SameBookkeeping(old(nodes), nodes)
      ensures r != Done(false)
      ensures r.Done? ==> Balanced(nodes, capacity, pending) && Entries(nodes) <= old(Entries(nodes))
      ensures r.Done? ==> !IsLeaf(nodes[n]) && nodes[n].elements == []
      decreases fuel, 2, 0, 0
    {
      ghost var start := nodes;
      SplitBalanced(nodes, n, capacity, pending);
      Split(n);
      var es := nodes[n].elements;
      ghost var split := nodes;
      r := ReaddAll(n, es, fuel, pending + {n});
      GrownTransitive(start, split, nodes);
      BookkeepingTransitive(start, split, nodes);
      if r.StackExhausted? {
        return;
      }
      assert Kept(split[n], nodes[n]);
      ClearSpread(start, nodes, n, es, capacity, pending);
      nodes := nodes[n := nodes[n].(elements := [])];
    }

    /** The loop of Distribute: Add every element of es from n, in order, whatever Add answers. */
    method ReaddAll(n: nat, es: seq<QtAgent>, fuel: nat, ghost pending: set<nat>) returns (r: AddResult)
      requires Valid() && n < |nodes| && Balanced(nodes, capacity, pending)
      modifies this
      ensures Valid() && Grown(old(nodes), nodes) && SameBookkeeping(old(nodes), nodes)
      ensures r != Done(false)
      ensures r.Done? ==> Balanced(nodes, capacity, pending) && Entries(nodes) <= old(Entries(nodes)) + multiset(es)
      decreases fuel, 1, 1, 0
    {
      var i := 0;
      while i < |es|
        invariant 0 <= i <= |es|
        invariant Valid() && Grown(old(nodes), nodes) && SameBookkeeping(old(nodes), nodes)
        invariant Balanced(nodes, capacity, pending)
        invariant Entries(nodes) <= old(Entries(nodes)) + multiset(es[..i])
      {
        ghost var prev := nodes;
        var exhausted := Readd(n, es[i], fuel, pending);
        GrownTransitive(old(nodes), prev, nodes);
        BookkeepingTransitive(old(nodes), prev, nodes);
        if exhausted {
          return StackExhausted;
        }
        Accumulate(Entries(nodes), Entries(prev), old(Entries(nodes)), es, i);
        i := i + 1;
      }
      WholePrefix(es);
      r := Done(true);
    }

    /** One element handed down by a split: Add from n, its answer ignored. */
    method Readd(n: nat, e: QtAgent, fuel: nat, ghost pending: set<nat>) returns (exhausted: bool)
      requires Valid() && n < |nodes| && Balanced(nodes, capacity, pending)
      modifies this
      ensures Valid() && Grown(old(nodes), nodes) && SameBookkeeping(old(nodes), nodes)
      ensures !exhausted ==> Balanced(nodes, capacity, pending) && Entries(nodes) <= old(Entries(nodes)) + multiset{e}
      decreases fuel, 1, 0, |nodes| - n + 1
    {
      var r := Add(n, e, fuel, pending);
      exhausted := r.StackExhausted?;
    }
  }

  /**
   * Splitting a node that already had children cuts them off: what lies
   * below the node afterwards is its own lists and nothing else, so every
   * agent stored beneath it before is lost to the tree.
   */
  lemma SplitForgetsSubtree(ns: Arena, n: nat)
    requires WellFormed(ns) && Rooted(ns) && n < |ns|
    ensures WellFormed(SplitAt(ns, n))
    ensures SubtreeEntries(SplitAt(ns, n), n) == Own(ns[n])
  {
    SplitWellFormed(ns, n);
    var ns' := SplitAt(ns, n);
    assert !IsLeaf(ns'[n]);
    forall k | 0 <= k < 4
      ensures SubtreeEntries(ns', Child(ns', n, k)) == multiset{}
    {
      assert Child(ns', n, k) == |ns| + k;
      assert ns'[|ns| + k] == EmptyNodes(4, n, ns[n].depthIndex + 1, ns[n].boundary)[k];
    }
    assert ChildrenEntries(ns', n, 1) == multiset{};
    assert ChildrenEntries(ns', n, 2) == multiset{};
    assert ChildrenEntries(ns', n, 3) == multiset{};
    assert ChildrenEntries(ns', n, 4) == multiset{};
  }

  /**
   * Once a leaf has split, Add from it refuses an agent whose center lies
   * outside its boundary: such an agent can sit in a leaf (Add on a leaf
   * never looks at the center), and the re-add after the split drops it.
   */
  lemma SplitRefusesOutside(ns: Arena, geo: Convex, n: nat, p: Point, s: ConvexShape)
    requires WellFormed(ns) && Rooted(ns) && n < |ns| && IsLeaf(ns[n])
    requires !ContainPoint2D(ns[n].boundary, p)
    ensures Route(ns, geo, n, p, s) == StoreElement(n)
    ensures WellFormed(SplitAt(ns, n)) && Route(SplitAt(ns, n), geo, n, p, s) == Rejected
  {
    SplitWellFormed(ns, n);
    ChildIndexInside(SplitAt(ns, n), n, p);
  }
}

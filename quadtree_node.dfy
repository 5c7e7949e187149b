// The quadtree node operations of the current generation. The whole tree is
// one object whose arena of nodes the operations update in place; an operation
// "on node n" is the C# method called on the node object at index n. The
// same operations serve the intermediate generation, whose Add, Remove, Split,
// ReOrganize, UpdateQuadtree, TotalElements, IndexOfNode and FindNode do the
// same thing. Its extra before-add notification lets an agent refresh its
// center and shape; here they are taken as current when Add runs.

module QuadtreeNodes {
  import opened Geometry
  import opened Agents
  import opened QuadtreeArena
  import opened Routing
  import opened Counting
  import opened Reorganizing

  /**
   * What Add reports: whether it stored the agent, or that the recursion of
   * splits and re-adds went deeper than the fuel allows (where the source
   * would overflow its call stack).
   */
  datatype AddResult = Done(added: bool) | StackExhausted

  /** The agents a node holds itself, plus a. */
  function With(own: multiset<QtAgent>, a: QtAgent?): multiset<QtAgent> {
    if a == null then own else own + multiset{a}
  }

  /**
   * What Add did with agent a, given where its routing put it: nothing when
   * it was refused; appended to the overlap list of the internal node t; appended
   * to the elements of leaf t when t had room; otherwise t split and holds no
   * elements any more, unless the fuel ran out. The agent's current node
   * moves from cur to cur' exactly when it was stored.
   */
  ghost predicate Placed(ns: Arena, ns': Arena, cap: nat, place: Placement, a: QtAgent, r: AddResult,
                         cur: Nullable<nat>, cur': Nullable<nat>)
  {
    match place
    case Rejected =>
      r == Done(false) && cur' == cur
    case StoreOverlap(t) =>
      t < |ns| && r == Done(true) && cur' == NonNull(t) &&
      ns' == ns[t := ns[t].(overlapElements := ns[t].overlapElements + [a])]
    case StoreElement(t) =>
      t < |ns| &&
      if |ns[t].elements| < cap then
        r == Done(true) && cur' == NonNull(t) &&
        ns' == ns[t := ns[t].(elements := ns[t].elements + [a])]
      else
        t < |ns'| && r != Done(false) && (r.Done? ==> !IsLeaf(ns'[t]) && ns'[t].elements == [])
  }

  /**
   * One Add of a queued agent, as a ghost record: the arena before and after,
   * what Add answered, the agent's current node before and after, and the
   * center and shape it was routed by.
   */
  datatype AddRecord = AddRecord(before: Arena, after: Arena, r: AddResult, cur: Nullable<nat>, cur': Nullable<nat>,
                                 center: Point, shape: ConvexShape)

  /**
   * One record of the queue loop is the Add of reference a from node n: a null
   * reference changes nothing; any other agent was placed where its routing on
   * the arena of that moment says.
   */
  ghost predicate AddedFrom(s: AddRecord, geo: Convex, n: nat, cap: nat, a: QtAgent?) {
    WellFormed(s.before) && n < |s.before| && s.r.Done? &&
    (s.r == Done(false) ==> s.after == s.before) &&
    if a == null then s.after == s.before && s.r == Done(false)
    else Placed(s.before, s.after, cap, Route(s.before, geo, n, s.center, s.shape), a, s.r, s.cur, s.cur')
  }

  /**
   * One record of the queue loop is an Add of reference a from node n that
   * ran out of stack: only an agent routed into a full leaf, whose elements
   * are then handed down again, can get there.
   */
  ghost predicate ExhaustedFrom(s: AddRecord, geo: Convex, n: nat, cap: nat, a: QtAgent?) {
    WellFormed(s.before) && n < |s.before| && a != null && s.r == StackExhausted &&
    Placed(s.before, s.after, cap, Route(s.before, geo, n, s.center, s.shape), a, StackExhausted, s.cur, s.cur')
  }

  /**
   * The log of the queue loop: one record per queued reference of a prefix of
   * the queue, in queue order, each starting from the arena the previous one
   * ended with, the first from start, the last ending with end.
   */
  ghost predicate AddedInOrder(start: Arena, log: seq<AddRecord>, geo: Convex, n: nat, cap: nat,
                               queue: seq<QtAgent?>, end: Arena)
    decreases |log|
  {
    |log| <= |queue| &&
    if log == [] then end == start
    else
      var k := |log| - 1;
      log[k].after == end &&
      AddedInOrder(start, log[..k], geo, n, cap, queue, log[k].before) &&
      AddedFrom(log[k], geo, n, cap, queue[k])
  }
  /**
   * The log of a queue loop that ran out of stack: the records before the
   * last are the in-order Adds from start, and the last is an Add that ran
   * out of stack from where they ended, leaving end.
   */
  ghost predicate StoppedInOrder(start: Arena, log: seq<AddRecord>, geo: Convex, n: nat, cap: nat,
                                 queue: seq<QtAgent?>, end: Arena)
  {
    0 < |log| <= |queue| && log[|log| - 1].after == end &&
    AddedInOrder(start, log[..|log| - 1], geo, n, cap, queue, log[|log| - 1].before) &&
    ExhaustedFrom(log[|log| - 1], geo, n, cap, queue[|log| - 1])
  }


  /** The center and shape each queued agent is routed by; a null reference holds a placeholder. */
  function Footprints(queue: seq<QtAgent?>): (r: seq<(Point, ConvexShape)>)
    reads set a | a in queue && a != null
    ensures |r| == |queue|
    ensures forall j :: 0 <= j < |queue| && queue[j] != null ==> r[j] == (queue[j].center, queue[j].shape)
  {
    if queue == [] then []
    else [if queue[0] == null then (Point(0.0, 0.0), Unknown) else (queue[0].center, queue[0].shape)] + Footprints(queue[1..])
  }

  class Quadtree {
    var nodes: Arena
    /** How many elements a leaf may hold before it splits (inclusive). */
    const capacity: nat
    /** The shape classifier of the geometry library. */
    const geo: Convex

    ghost predicate Valid()
      reads this
    {
      WellFormed(nodes) && Rooted(nodes)
    }

    /** createRootQuadtree: a single empty leaf covering the given boundary. */
    constructor (boundary: Rect, capacity: nat, geo: Convex)
      ensures Valid() && nodes == [InitNode(Null, 0, boundary)]
      ensures this.capacity == capacity && this.geo == geo
      ensures Balanced(nodes, capacity, {}) && Entries(nodes) == multiset{}
    {
      nodes := [InitNode(Null, 0, boundary)];
      this.capacity := capacity;
      this.geo := geo;
      new;
      assert Linked(nodes, 0);
      assert Entries(nodes) == EntriesBelow(nodes, 0) + Own(nodes[0]);
    }

    // -------------------------------------------------------------------------
    // Queries that only read the tree

    /** The first child of n containing a's center, or -1 for a null agent, a leaf, or no such child. */
    method IndexOfNode(n: nat, a: QtAgent?) returns (k: int)
      requires Valid() && n < |nodes|
      ensures k == (if a == null then -1 else ChildIndex(nodes, n, a.center))
    {
      if a == null || IsLeaf(nodes[n]) {
        return -1;
      }
      k := 0;
      while k < 4
        invariant 0 <= k <= 4
        invariant forall j :: 0 <= j < k ==> !ContainPoint2D(nodes[Child(nodes, n, j)].boundary, a.center)
      {
        if ContainPoint2D(nodes[Child(nodes, n, k)].boundary, a.center) {
          return;
        }
        k := k + 1;
      }
      k := -1;
    }

    /** rootQuadtree: climb the parent links; the node reached is the root, node 0. */
    method RootQuadtree(n: nat) returns (q: nat)
      requires Valid() && n < |nodes|
      ensures q == Root(nodes, n) && q == 0
    {
      q := n;
      while nodes[q].parentNode.NonNull?
        invariant q <= n && Root(nodes, q) == Root(nodes, n)
        decreases q
      {
        assert Linked(nodes, q);
        q := nodes[q].parentNode.value;
      }
    }

    /** TotalElements: the count of the node's entries and, when deepNode holds, of its children's. */
    method TotalElements(n: nat, includeOverlap: bool, deepNode: bool) returns (count: nat)
      requires Valid() && n < |nodes|
      ensures count == Count(nodes, n, includeOverlap, deepNode)
      decreases |nodes| - n
    {
      count := |nodes[n].elements|;
      if includeOverlap {
        count := count + |nodes[n].overlapElements|;
      }
      if deepNode {
        if IsLeaf(nodes[n]) {
          return;
        }
        ghost var own := count;
        var k := 0;
        while k < 4
          invariant 0 <= k <= 4
          invariant count == own + |ChildrenEntries(nodes, n, k)|
        {
          var c := TotalElements(Child(nodes, n, k), true, true);
          CountIsSubtreeSize(nodes, Child(nodes, n, k));
          count := count + c;
          k := k + 1;
        }
      }
    }

    /** GetAllElements: the children's lists first, then the node's own. */
    method GetAllElements(n: nat, overlap: bool, includeChild: bool) returns (result: seq<QtAgent>)
      requires Valid() && n < |nodes|
      ensures result == AllElements(nodes, n, overlap, includeChild)
      decreases |nodes| - n
    {
      result := [];
      if includeChild && !IsLeaf(nodes[n]) {
        var k := 0;
        while k < 4
          invariant 0 <= k <= 4
          invariant result == ChildrenElements(nodes, n, k, overlap, includeChild)
        {
          var below := GetAllElements(Child(nodes, n, k), overlap, includeChild);
          result := result + below;
          k := k + 1;
        }
      }
      result := result + nodes[n].elements;
      if overlap {
        result := result + nodes[n].overlapElements;
      }
    }

    // -------------------------------------------------------------------------
    // Split

    /**
     * Split: a node that already has children is left alone; a leaf gets
     * four new empty children, the quadrants of its boundary in the order
     * NW, NE, SE, SW, one level deeper. Nothing is stored or moved.
     */
    method Split(n: nat)
      requires Valid() && n < |nodes|
      modifies this
      ensures Valid() && Entries(nodes) == old(Entries(nodes))
      ensures !IsLeaf(old(nodes)[n]) ==> nodes == old(nodes)
      ensures IsLeaf(old(nodes)[n]) ==> nodes == SplitAt(old(nodes), n)
    {
      if !IsLeaf(nodes[n]) {
        return;
      }
      var b := |nodes|;
      SplitWellFormed(nodes, n);
      nodes := nodes[n := nodes[n].(children := NonNull([b, b + 1, b + 2, b + 3]))] +
               EmptyNodes(4, n, nodes[n].depthIndex + 1, nodes[n].boundary);
    }

    // -------------------------------------------------------------------------
    // Add

    /**
     * Add from node n. A null agent is refused. An internal node routes the
     * agent by the first child containing its center: refused when there is
     * none, passed down on Fit, kept in the overlap list on Overlap, refused
     * on None. A leaf appends it; a leaf that then holds more than capacity
     * elements splits and hands every element to Add again, falling back to
     * an Add from the root when that fails, and ends up with no elements.
     * An element whose two re-adds both fail is dropped.
     */
    method Add(n: nat, a: QtAgent?, fuel: nat, ghost pending: set<nat>) returns (r: AddResult)
      requires Valid() && n < |nodes| && Balanced(nodes, capacity, pending)
      modifies this, Stored(nodes)`currentNode, Opt(a)`currentNode
      ensures Valid() && Grown(old(nodes), nodes) && SameBookkeeping(old(nodes), nodes)
      ensures Stored(nodes) <= old(Stored(nodes)) + Opt(a)
      ensures r.Done? ==> Balanced(nodes, capacity, pending)
      ensures r.Done? ==> Entries(nodes) <= With(old(Entries(nodes)), a)
      ensures r == Done(false) ==> nodes == old(nodes)
      ensures a == null ==> r == Done(false)
      ensures a != null ==>
        Placed(old(nodes), nodes, capacity, Route(old(nodes), geo, n, a.center, a.shape), a, r, old(a.currentNode), a.currentNode)
      decreases fuel, 1, 0, |nodes| - n, 1
    {
      if a == null {
        return Done(false);
      }
      if !IsLeaf(nodes[n]) {
        r := AddInternal(n, a, fuel, pending);
        return;
      }
      assert Route(nodes, geo, n, a.center, a.shape) == StoreElement(n);
      r := AddToLeaf(n, a, fuel, pending);
    }

    /**
     * Add's branch for an internal node n: route a by the first child
     * containing its center and the classifier's answer for that child.
     */
    method AddInternal(n: nat, a: QtAgent, fuel: nat, ghost pending: set<nat>) returns (r: AddResult)
      requires Valid() && n < |nodes| && !IsLeaf(nodes[n]) && Balanced(nodes, capacity, pending)
      modifies this, Stored(nodes)`currentNode, a`currentNode
      ensures Valid() && Grown(old(nodes), nodes) && SameBookkeeping(old(nodes), nodes)
      ensures Stored(nodes) <= old(Stored(nodes)) + {a}
      ensures r.Done? ==> Balanced(nodes, capacity, pending)
      ensures r.Done? ==> Entries(nodes) <= old(Entries(nodes)) + multiset{a}
      ensures r == Done(false) ==> nodes == old(nodes)
      ensures Placed(old(nodes), nodes, capacity, Route(old(nodes), geo, n, a.center, a.shape), a, r, old(a.currentNode), a.currentNode)
      decreases fuel, 1, 0, |nodes| - n, 0
    {
      var k := ChildIndex(nodes, n, a.center);
      if k < 0 {
        return Done(false);
      }
      var c := Child(nodes, n, k);
      match geo.shapeVsRect(a.shape, nodes[c].boundary) {
        case Fit =>
          assert Route(nodes, geo, n, a.center, a.shape) == Route(nodes, geo, c, a.center, a.shape);
          r := Add(c, a, fuel, pending);
        case Overlap =>
          assert Route(nodes, geo, n, a.center, a.shape) == StoreOverlap(n);
          AddOverlap(n, a, pending);
          r := Done(true);
        case None =>
          r := Done(false);
      }
    }

    /** Add's Overlap branch: the internal node n keeps a in its overlap list. */
    method AddOverlap(n: nat, a: QtAgent, ghost pending: set<nat>)
      requires Valid() && n < |nodes| && !IsLeaf(nodes[n]) && Balanced(nodes, capacity, pending)
      modifies this, a`currentNode
      ensures Valid() && Grown(old(nodes), nodes) && SameBookkeeping(old(nodes), nodes)
      ensures Stored(nodes) == old(Stored(nodes)) + {a}
      ensures Balanced(nodes, capacity, pending) && Entries(nodes) == old(Entries(nodes)) + multiset{a}
      ensures nodes == old(nodes)[n := old(nodes)[n].(overlapElements := old(nodes)[n].overlapElements + [a])]
      ensures a.currentNode == NonNull(n)
    {
      var v := nodes[n].(overlapElements := nodes[n].overlapElements + [a]);
      PutEntry(nodes, n, v, a);
      BalancedUpdate(nodes, n, v, capacity, pending);
      nodes := nodes[n := v];
      a.AfterAddToQuadtreeNode(n);
    }

    /**
     * Add's leaf branch: append to the elements of leaf n, and when the leaf
     * then holds more than capacity elements, split and redistribute.
     */
    method AddToLeaf(n: nat, a: QtAgent, fuel: nat, ghost pending: set<nat>) returns (r: AddResult)
      requires Valid() && n < |nodes| && IsLeaf(nodes[n]) && Balanced(nodes, capacity, pending)
      modifies this, Stored(nodes)`currentNode, a`currentNode
      ensures Valid() && Grown(old(nodes), nodes) && SameBookkeeping(old(nodes), nodes)
      ensures Stored(nodes) <= old(Stored(nodes)) + {a}
      ensures r.Done? ==> Balanced(nodes, capacity, pending) && Entries(nodes) <= old(Entries(nodes)) + multiset{a}
      ensures r != Done(false)
      ensures if |old(nodes)[n].elements| < capacity then
          r == Done(true) && a.currentNode == NonNull(n) &&
          nodes == old(nodes)[n := old(nodes)[n].(elements := old(nodes)[n].elements + [a])]
        else
          r.Done? ==> !IsLeaf(nodes[n]) && nodes[n].elements == []
      decreases fuel, 1, 0, 0
    {
      AppendElement(n, a, pending);
      if |nodes[n].elements| <= capacity {
        return Done(true);
      }
      if fuel == 0 {
        return StackExhausted;
      }
      ghost var appended := nodes;
      r := Distribute(n, fuel - 1, pending);
      GrownTransitive(old(nodes), appended, nodes);
      BookkeepingTransitive(old(nodes), appended, nodes);
    }

    /** Add's append on the leaf n: a joins its elements, which may now exceed capacity. */
    method AppendElement(n: nat, a: QtAgent, ghost pending: set<nat>)
      requires Valid() && n < |nodes| && IsLeaf(nodes[n]) && Balanced(nodes, capacity, pending)
      modifies this, a`currentNode
      ensures Valid() && Grown(old(nodes), nodes) && SameBookkeeping(old(nodes), nodes)
      ensures Stored(nodes) == old(Stored(nodes)) + {a} && Entries(nodes) == old(Entries(nodes)) + multiset{a}
      ensures nodes == old(nodes)[n := old(nodes)[n].(elements := old(nodes)[n].elements + [a])]
      ensures BalancedBut(nodes, capacity, pending, n)
      ensures |nodes[n].elements| <= capacity ==> Balanced(nodes, capacity, pending)
      ensures a.currentNode == NonNull(n)
    {
      var v := nodes[n].(elements := nodes[n].elements + [a]);
      PutEntry(nodes, n, v, a);
      Unbalance(nodes, n, v, capacity, pending);
      if |v.elements| <= capacity {
        BalancedUpdate(nodes, n, v, capacity, pending);
      }
      nodes := nodes[n := v];
      a.AfterAddToQuadtreeNode(n);
    }

    /**
     * The overflow branch of Add on leaf n: split it, hand each of its
     * elements to Add from n again, falling back to an Add from the root when
     * that fails, and clear its elements.
     */
    method Distribute(n: nat, fuel: nat, ghost pending: set<nat>) returns (r: AddResult)
      requires Valid() && n < |nodes| && IsLeaf(nodes[n]) && n !in pending
      requires BalancedBut(nodes, capacity, pending, n)
      modifies this, Stored(nodes)`currentNode
      ensures Valid() && Grown(old(nodes), nodes) && SameBookkeeping(old(nodes), nodes)
      ensures Stored(nodes) <= old(Stored(nodes))
      ensures r != Done(false)
      ensures r.Done? ==> Balanced(nodes, capacity, pending) && Entries(nodes) <= old(Entries(nodes))
      ensures r.Done? ==> !IsLeaf(nodes[n]) && nodes[n].elements == []
      decreases fuel, 2, 0, 0
    {
      ghost var start := nodes;
      OwnInEntries(nodes, n);
      SplitBalanced(nodes, n, capacity, pending);
      Split(n);
      var es := nodes[n].elements;
      ghost var split := nodes;
      r := ReaddAll(n, es, fuel, pending + {n});
      GrownTransitive(start, split, nodes);
      BookkeepingTransitive(start, split, nodes);
      if r.StackExhausted? {
        return;
      }
      assert Kept(split[n], nodes[n]);
      ClearSpread(start, nodes, n, es, capacity, pending);
      nodes := nodes[n := nodes[n].(elements := [])];
    }

    /** The loop of Distribute: Readd every element of es, in order. */
    method ReaddAll(n: nat, es: seq<QtAgent>, fuel: nat, ghost pending: set<nat>) returns (r: AddResult)
      requires Valid() && n < |nodes| && Balanced(nodes, capacity, pending)
      requires forall x :: x in es ==> x in Stored(nodes)
      modifies this, Stored(nodes)`currentNode
      ensures Valid() && Grown(old(nodes), nodes) && SameBookkeeping(old(nodes), nodes)
      ensures Stored(nodes) <= old(Stored(nodes))
      ensures r != Done(false)
      ensures r.Done? ==> Balanced(nodes, capacity, pending) && Entries(nodes) <= old(Entries(nodes)) + multiset(es)
      decreases fuel, 1, 2, 0
    {
      var i := 0;
      while i < |es|
        invariant 0 <= i <= |es|
        invariant Valid() && Grown(old(nodes), nodes) && SameBookkeeping(old(nodes), nodes)
        invariant Balanced(nodes, capacity, pending)
        invariant Entries(nodes) <= old(Entries(nodes)) + multiset(es[..i])
        invariant Stored(nodes) <= old(Stored(nodes))
      {
        ghost var prev := nodes;
        var res := Readd(n, es[i], fuel, pending);
        GrownTransitive(old(nodes), prev, nodes);
        BookkeepingTransitive(old(nodes), prev, nodes);
        if res.StackExhausted? {
          return StackExhausted;
        }
        Accumulate(Entries(nodes), Entries(prev), old(Entries(nodes)), es, i);
        i := i + 1;
      }
      WholePrefix(es);
      r := Done(true);
    }

    /**
     * One element handed down by a split: Add from n, and when that refuses
     * it, Add from the root. When both refuse it the element is lost.
     */
    method Readd(n: nat, e: QtAgent, fuel: nat, ghost pending: set<nat>) returns (r: AddResult)
      requires Valid() && n < |nodes| && Balanced(nodes, capacity, pending)
      modifies this, Stored(nodes)`currentNode, e`currentNode
      ensures Valid() && Grown(old(nodes), nodes) && SameBookkeeping(old(nodes), nodes)
      ensures Stored(nodes) <= old(Stored(nodes)) + {e}
      ensures r.Done? ==> Balanced(nodes, capacity, pending) && Entries(nodes) <= old(Entries(nodes)) + multiset{e}
      decreases fuel, 1, 1, 0
    {
      r := Add(n, e, fuel, pending);
      if r == Done(false) {
        var root := RootQuadtree(n);
        r := Add(root, e, fuel, pending);
      }
    }

    // -------------------------------------------------------------------------
    // Remove

    /**
     * Remove from node n: take the agent out of the node's own lists when they
     * hold it; otherwise look in the child containing its center, but only
     * when the shape Fits that child. On success every node of the search
     * path is flagged for reorganisation.
     */
    method Remove(n: nat, a: QtAgent?) returns (removed: bool)
      requires Valid() && n < |nodes|
      modifies this
      ensures Valid()
      ensures a == null ==> !removed && nodes == old(nodes)
      ensures a != null ==> (nodes, removed) == Removed(old(nodes), geo, n, a, a.center, a.shape)
      decreases |nodes| - n
    {
      if a == null {
        return false;
      }
      if Holds(nodes[n], a) {
        Reshape(nodes, n, Drop(nodes[n], a).(organizeTree := true));
        nodes := nodes[n := Drop(nodes[n], a).(organizeTree := true)];
        return true;
      }
      removed := false;
      if !IsLeaf(nodes[n]) {
        var k := IndexOfNode(n, a);
        if k >= 0 {
          var c := Child(nodes, n, k);
          if geo.shapeVsRect(a.shape, nodes[c].boundary) == Fit {
            removed := Remove(c, a);
            if removed {
              Reshape(nodes, n, nodes[n].(organizeTree := true));
              nodes := nodes[n := nodes[n].(organizeTree := true)];
            }
          }
        }
      }
    }

    // -------------------------------------------------------------------------
    // ReOrganize

    /**
     * ReOrganize from n: reorganize each child in turn, and drop the
     * children when each was, right after its own turn, a leaf with no
     * elements and no overlap elements.
     */
    method ReOrganize(n: nat)
      requires Valid() && n < |nodes|
      modifies this
      ensures Valid() && nodes == Reorg(old(nodes), n)
      decreases |nodes| - n
    {
      if IsLeaf(nodes[n]) {
        return;
      }
      var clean := true;
      var k := 0;
      while k < 4
        invariant 0 <= k <= 4
        invariant Valid() && (nodes, clean) == ReorgChildren(old(nodes), n, k)
      {
        var c := Child(nodes, n, k);
        ReOrganize(c);
        if !IsLeaf(nodes[c]) {
          clean := false;
        }
        var total := TotalElements(c, true, false);
        if total != 0 {
          clean := false;
        }
        assert (nodes, clean) == ReorgChildren(old(nodes), n, k + 1);
        k := k + 1;
      }
      if clean {
        LopWellFormed(nodes, n);
        nodes := nodes[n := nodes[n].(children := Null)];
      }
    }

    // -------------------------------------------------------------------------
    // The per-frame queue

    /** AddNextFrame: only appends to node n's queue. */
    method AddNextFrame(n: nat, a: QtAgent?)
      requires Valid() && n < |nodes|
      modifies this
      ensures Valid()
      ensures nodes == old(nodes)[n := old(nodes)[n].(elementsNextFrame := old(nodes)[n].elementsNextFrame + [a])]
    {
      Reshape(nodes, n, nodes[n].(elementsNextFrame := nodes[n].elementsNextFrame + [a]));
      nodes := nodes[n := nodes[n].(elementsNextFrame := nodes[n].elementsNextFrame + [a])];
    }

    /**
     * The i-th queued reference handed to Add from n, for the loop that
     * began with the arena start; the ghost log of the earlier references
     * grows by the record of this one.
     */
    method AddLogged(n: nat, queue: seq<QtAgent?>, i: nat, fuel: nat, ghost start: Arena, ghost log: seq<AddRecord>,
                     ghost routes: seq<(Point, ConvexShape)>)
      returns (r: AddResult, ghost log': seq<AddRecord>)
      requires Valid() && n < |nodes| && Balanced(nodes, capacity, {})
      requires i == |log| < |queue| && AddedInOrder(start, log, geo, n, capacity, queue, nodes)
      requires Grown(start, nodes) && SameBookkeeping(start, nodes)
      requires Entries(nodes) <= Entries(start) + NonNullAgents(queue[..i])
      requires Stored(nodes) <= Stored(start) + Present(queue)
      requires |routes| == |queue| && (queue[i] != null ==> routes[i] == (queue[i].center, queue[i].shape))
      requires forall j :: 0 <= j < i && queue[j] != null ==> (log[j].center, log[j].shape) == routes[j]
      modifies this, Stored(start)`currentNode, Present(queue)`currentNode
      ensures Valid() && Grown(start, nodes) && SameBookkeeping(start, nodes)
      ensures Stored(nodes) <= Stored(start) + Present(queue)
      ensures r.Done? ==> Balanced(nodes, capacity, {}) && Entries(nodes) <= Entries(start) + NonNullAgents(queue[..i + 1])
      ensures |log'| == i + 1 && log'[..i] == log
      ensures r.Done? ==> AddedInOrder(start, log', geo, n, capacity, queue, nodes)
      ensures r.StackExhausted? ==> StoppedInOrder(start, log', geo, n, capacity, queue, nodes)
      ensures forall j :: 0 <= j <= i && queue[j] != null ==> (log'[j].center, log'[j].shape) == routes[j]
    {
      var a := queue[i];
      ghost var cur := if a == null then Null else a.currentNode;
      r := Add(n, a, fuel, {});
      ghost var p, sh := if a == null then Point(0.0, 0.0) else a.center, if a == null then Unknown else a.shape;
      GrownTransitive(start, old(nodes), nodes);
      BookkeepingTransitive(start, old(nodes), nodes);
      ghost var cur' := if a == null then Null else a.currentNode;
      ghost var rec := AddRecord(old(nodes), nodes, r, cur, cur', p, sh);
      if r.Done? {
        LogStep(start, log, rec, geo, n, capacity, queue);
        NonNullAgentsStep(queue, i);
      }
      RoutesLogged(log, rec, queue, routes);
      log' := log + [rec];
    }

    /**
     * The loop of UpdateQuadtree: Add every queued agent from n, in queue
     * order. The ghost log records each Add; unless the fuel ran out, there is
     * one record per queued reference and the tree ends as the last one.
     */
    method AddQueued(n: nat, queue: seq<QtAgent?>, fuel: nat) returns (exhausted: bool, ghost log: seq<AddRecord>)
      requires Valid() && n < |nodes| && Balanced(nodes, capacity, {})
      modifies this, Stored(nodes)`currentNode, Present(queue)`currentNode
      ensures Valid() && Grown(old(nodes), nodes) && SameBookkeeping(old(nodes), nodes)
      ensures !exhausted ==> Balanced(nodes, capacity, {})
      ensures !exhausted ==> Entries(nodes) <= old(Entries(nodes)) + NonNullAgents(queue)
      ensures !exhausted ==> |log| == |queue| && AddedInOrder(old(nodes), log, geo, n, capacity, queue, nodes)
      ensures exhausted ==> StoppedInOrder(old(nodes), log, geo, n, capacity, queue, nodes)
      ensures |log| <= |queue| && forall j :: 0 <= j < |log| && queue[j] != null ==>
        (log[j].center, log[j].shape) == old(Footprints(queue))[j]
    {
      ghost var routes := Footprints(queue);
      var i := 0;
      log := [];
      while i < |queue|
        invariant 0 <= i <= |queue|
        invariant Valid() && Balanced(nodes, capacity, {})
        invariant Grown(old(nodes), nodes) && SameBookkeeping(old(nodes), nodes)
        invariant Entries(nodes) <= old(Entries(nodes)) + NonNullAgents(queue[..i])
        invariant Stored(nodes) <= old(Stored(nodes)) + Present(queue)
        invariant |log| == i && AddedInOrder(old(nodes), log, geo, n, capacity, queue, nodes)
        invariant forall j :: 0 <= j < i && queue[j] != null ==> (log[j].center, log[j].shape) == routes[j]
      {
        var res;
        res, log := AddLogged(n, queue, i, fuel, old(nodes), log, routes);
        if res.StackExhausted? {
          return true, log;
        }
        i := i + 1;
      }
      NonNullAgentsWhole(queue);
      exhausted := false;
    }

    /**
     * UpdateQuadtree on node n: Add every queued agent from n, in queue
     * order, and empty the queue; then, only when n's own flag is set,
     * ReOrganize from n and clear the flag. The ghost log records the Adds,
     * and added is the tree they leave.
     */
    method UpdateQuadtree(n: nat, fuel: nat) returns (exhausted: bool, ghost log: seq<AddRecord>, ghost added: Arena)
      requires Valid() && n < |nodes| && Balanced(nodes, capacity, {})
      modifies this, Stored(nodes)`currentNode, Present(nodes[n].elementsNextFrame)`currentNode
      ensures Valid() && n < |nodes|
      ensures !exhausted ==> Balanced(nodes, capacity, {})
      ensures !exhausted ==> nodes[n].elementsNextFrame == [] && !nodes[n].organizeTree
      ensures !exhausted ==> Entries(nodes) <= old(Entries(nodes)) + NonNullAgents(old(nodes)[n].elementsNextFrame)
      ensures !exhausted && old(nodes)[n].organizeTree ==> Tidy(nodes, n)
      ensures !old(nodes)[n].organizeTree ==> Grown(old(nodes), nodes)
      ensures !exhausted ==> |log| == |old(nodes)[n].elementsNextFrame|
      ensures !exhausted ==> AddedInOrder(old(nodes), log, geo, n, capacity, old(nodes)[n].elementsNextFrame, added)
      ensures exhausted ==> StoppedInOrder(old(nodes), log, geo, n, capacity, old(nodes)[n].elementsNextFrame, nodes)
      ensures |log| <= |old(nodes)[n].elementsNextFrame| && forall j :: 0 <= j < |log| && old(nodes[n].elementsNextFrame[j]) != null ==>
        log[j].center == old(nodes[n].elementsNextFrame[j].center) && log[j].shape == old(nodes[n].elementsNextFrame[j].shape)
      ensures !exhausted ==> n < |added| && WellFormed(Drained(added, n))
      ensures !exhausted ==> nodes == if old(nodes)[n].organizeTree then Reorganized(Drained(added, n), n) else Drained(added, n)
    {
      exhausted, log, added := DrainQueue(n, fuel);
      if exhausted {
        return;
      }
      OrganizeIfFlagged(n);
    }

    /** The first half of UpdateQuadtree: Add every queued agent from n, in queue order, and empty the queue. */
    method DrainQueue(n: nat, fuel: nat) returns (exhausted: bool, ghost log: seq<AddRecord>, ghost added: Arena)
      requires Valid() && n < |nodes| && Balanced(nodes, capacity, {})
      modifies this, Stored(nodes)`currentNode, Present(nodes[n].elementsNextFrame)`currentNode
      ensures Valid() && n < |nodes| && Grown(old(nodes), nodes)
      ensures !exhausted ==> Balanced(nodes, capacity, {}) && nodes[n].organizeTree == old(nodes)[n].organizeTree
      ensures !exhausted ==> Entries(nodes) <= old(Entries(nodes)) + NonNullAgents(old(nodes)[n].elementsNextFrame)
      ensures !exhausted ==> |log| == |old(nodes)[n].elementsNextFrame|
      ensures !exhausted ==> AddedInOrder(old(nodes), log, geo, n, capacity, old(nodes)[n].elementsNextFrame, added)
      ensures exhausted ==> StoppedInOrder(old(nodes), log, geo, n, capacity, old(nodes)[n].elementsNextFrame, nodes)
      ensures |log| <= |old(nodes)[n].elementsNextFrame| && forall j :: 0 <= j < |log| && old(nodes[n].elementsNextFrame[j]) != null ==>
        log[j].center == old(nodes[n].elementsNextFrame[j].center) && log[j].shape == old(nodes[n].elementsNextFrame[j].shape)
      ensures !exhausted ==> n < |added| && nodes == Drained(added, n)
    {
      var queue := nodes[n].elementsNextFrame;
      log, added := [], nodes;
      if |queue| == 0 {
        assert Drained(nodes, n) == nodes;
        SubPlus(Entries(nodes), NonNullAgents(queue));
        return false, log, added;
      }
      exhausted, log := AddQueued(n, queue, fuel);
      added := nodes;
      if exhausted {
        return;
      }
      var v := nodes[n].(elementsNextFrame := []);
      Reshape(nodes, n, v);
      BalancedUpdate(nodes, n, v, capacity, {});
      EntriesSameOwn(nodes, n, v);
      GrownBookkeeping(old(nodes), nodes, n, v);
      nodes := nodes[n := v];
    }

    /** The second half of UpdateQuadtree: when n's flag is set, ReOrganize from n and clear the flag. */
    method OrganizeIfFlagged(n: nat)
      requires Valid() && n < |nodes| && Balanced(nodes, capacity, {})
      modifies this
      ensures Valid() && n < |nodes| && Balanced(nodes, capacity, {})
      ensures Entries(nodes) == old(Entries(nodes)) && !nodes[n].organizeTree
      ensures nodes[n].elementsNextFrame == old(nodes)[n].elementsNextFrame
      ensures old(nodes)[n].organizeTree ==> Tidy(nodes, n)
      ensures nodes == if old(nodes)[n].organizeTree then Reorganized(old(nodes), n) else old(nodes)
    {
      if nodes[n].organizeTree {
        ReOrganize(n);
        ReorgStep(old(nodes), n, capacity);
        nodes := nodes[n := nodes[n].(organizeTree := false)];
      }
    }
  }

  // ---------------------------------------------------------------------------
  // Facts the class relies on

  /**
   * The arena after splitting leaf n: n links to four new empty nodes at the
   * end, the quadrants of its boundary one level deeper.
   */
  function SplitAt(ns: Arena, n: nat): Arena
    requires n < |ns|
  {
    var b := |ns|;
    ns[n := ns[n].(children := NonNull([b, b + 1, b + 2, b + 3]))] +
    EmptyNodes(4, n, ns[n].depthIndex + 1, ns[n].boundary)
  }

  /** Splitting keeps the arena well formed and rooted, and stores nothing new. */
  lemma SplitWellFormed(ns: Arena, n: nat)
    requires WellFormed(ns) && Rooted(ns) && n < |ns|
    ensures WellFormed(SplitAt(ns, n)) && Rooted(SplitAt(ns, n)) && Entries(SplitAt(ns, n)) == Entries(ns)
  {
    SplitLinked(ns, n);
    SplitEntries(ns, n);
  }

  lemma SplitLinked(ns: Arena, n: nat)
    requires WellFormed(ns) && n < |ns|
    ensures WellFormed(SplitAt(ns, n))
  {
    forall i | 0 <= i < |SplitAt(ns, n)|
      ensures Linked(SplitAt(ns, n), i)
    {
      if i == n {
        SplitLinkedParent(ns, n);
      } else if i < |ns| {
        SplitLinkedOld(ns, n, i);
      } else {
        SplitLinkedNew(ns, n, i);
      }
    }
  }

  lemma SplitLinkedParent(ns: Arena, n: nat)
    requires WellFormed(ns) && n < |ns|
    ensures Linked(SplitAt(ns, n), n)
  {
    assert Linked(ns, n);
    var ns' := SplitAt(ns, n);
    forall k | 0 <= k < 4
      ensures ns'[|ns| + k] == InitNode(NonNull(n), ns[n].depthIndex + 1, Quadrant(ns[n].boundary, k))
    {
      assert ns'[|ns| + k] == EmptyNodes(4, n, ns[n].depthIndex + 1, ns[n].boundary)[k];
    }
  }

  lemma SplitLinkedOld(ns: Arena, n: nat, i: nat)
    requires WellFormed(ns) && n < |ns| && i < |ns| && i != n
    ensures Linked(SplitAt(ns, n), i)
  {
    assert Linked(ns, i);
  }

  lemma SplitLinkedNew(ns: Arena, n: nat, i: nat)
    requires WellFormed(ns) && n < |ns| && |ns| <= i < |ns| + 4
    ensures Linked(SplitAt(ns, n), i)
  {
    assert Linked(ns, n);
    assert SplitAt(ns, n)[i] == EmptyNodes(4, n, ns[n].depthIndex + 1, ns[n].boundary)[i - |ns|];
  }

  lemma SplitEntries(ns: Arena, n: nat)
    requires n < |ns|
    ensures Entries(SplitAt(ns, n)) == Entries(ns)
  {
    var b := |ns|;
    var front := ns[n := ns[n].(children := NonNull([b, b + 1, b + 2, b + 3]))];
    var kids := EmptyNodes(4, n, ns[n].depthIndex + 1, ns[n].boundary);
    EntriesAppend(front, kids);
    assert Entries(front) + multiset{} == Entries(front);
    EntriesSameOwn(ns, n, front[n]);
  }

  /**
   * Once the elements es of the split node n have been handed down, emptying
   * n's own list restores the storage discipline and leaves no more entries
   * than before the split.
   */
  lemma ClearSpread(start: Arena, ns: Arena, n: nat, es: seq<QtAgent>, cap: nat, pending: set<nat>)
    requires WellFormed(ns) && Rooted(ns) && n < |start| && IsLeaf(start[n]) && n !in pending
    requires Grown(start, ns) && SameBookkeeping(start, ns)
    requires !IsLeaf(ns[n]) && ns[n].elements == es
    requires Balanced(ns, cap, pending + {n}) && Entries(ns) <= Entries(start) + multiset(es)
    ensures var ns' := ns[n := ns[n].(elements := [])];
      WellFormed(ns') && Rooted(ns') && Grown(start, ns') && SameBookkeeping(start, ns') &&
      Balanced(ns', cap, pending) && Entries(ns') <= Entries(start) && Stored(ns') <= Stored(start) &&
      !IsLeaf(ns'[n]) && ns'[n].elements == []
  {
    var cleared := ns[n].(elements := []);
    Reshape(ns, n, cleared);
    GrownAtLeaf(start, ns, n, cleared);
    BalancedUpdate(ns, n, cleared, cap, pending + {n});
    Settle(ns[n := cleared], cap, pending, n);
    assert pending - {n} == pending;
    EntriesChange(ns, n, cleared, multiset{}, multiset(es));
    Cancel(Entries(ns[n := cleared]), Entries(start), multiset(es));
    StoredMono(ns[n := cleared], start);
  }

  /**
   * A leaf that breaks the storage discipline only itself is, once split,
   * a pending internal node above four disciplined leaves.
   */
  lemma SplitBalanced(ns: Arena, n: nat, cap: nat, pending: set<nat>)
    requires n < |ns| && IsLeaf(ns[n]) && n !in pending && BalancedBut(ns, cap, pending, n)
    ensures Balanced(SplitAt(ns, n), cap, pending + {n})
  {
    var ns' := SplitAt(ns, n);
    forall i | 0 <= i < |ns'|
      ensures IsLeaf(ns'[i]) ==> i !in pending + {n} && |ns'[i].elements| <= cap
      ensures !IsLeaf(ns'[i]) && i !in pending + {n} ==> ns'[i].elements == []
    {
      if i >= |ns| {
        assert ns'[i] == EmptyNodes(4, n, ns[n].depthIndex + 1, ns[n].boundary)[i - |ns|];
      }
    }
  }

  /** Appending the record of the next reference keeps every record's center and shape those of its reference. */
  lemma RoutesLogged(log: seq<AddRecord>, s: AddRecord, queue: seq<QtAgent?>, routes: seq<(Point, ConvexShape)>)
    requires |log| < |queue| == |routes|
    requires forall j :: 0 <= j < |log| && queue[j] != null ==> (log[j].center, log[j].shape) == routes[j]
    requires queue[|log|] != null ==> (s.center, s.shape) == routes[|log|]
    ensures forall j :: 0 <= j <= |log| && queue[j] != null ==> ((log + [s])[j].center, (log + [s])[j].shape) == routes[j]
  {
  }

  /**
   * The queue loop can stop for want of stack only at a non-null agent that
   * its routing sends into a leaf already holding capacity elements.
   */
  lemma ExhaustedOnFullLeaf(s: AddRecord, geo: Convex, n: nat, cap: nat, a: QtAgent?)
    requires ExhaustedFrom(s, geo, n, cap, a)
    ensures a != null
    ensures var place := Route(s.before, geo, n, s.center, s.shape);
      place.StoreElement? && place.node < |s.before| && |s.before[place.node].elements| >= cap
  {
  }

  /** A log of Adds grows by the record of the next queued reference. */
  lemma LogStep(start: Arena, log: seq<AddRecord>, s: AddRecord, geo: Convex, n: nat, cap: nat, queue: seq<QtAgent?>)
    requires |log| < |queue| && AddedInOrder(start, log, geo, n, cap, queue, s.before)
    requires AddedFrom(s, geo, n, cap, queue[|log|])
    ensures AddedInOrder(start, log + [s], geo, n, cap, queue, s.after)
  {
    assert (log + [s])[..|log|] == log;
  }

  /**
   * Record j of a queue loop's log is the Add of the j-th queued reference,
   * started from the arena the previous record ended with (from start for
   * the first); the last record ends with the log's end arena.
   */
  lemma {:induction false} AddedAt(start: Arena, log: seq<AddRecord>, geo: Convex, n: nat, cap: nat,
                                   queue: seq<QtAgent?>, end: Arena, j: nat)
    requires AddedInOrder(start, log, geo, n, cap, queue, end) && j < |log|
    ensures AddedFrom(log[j], geo, n, cap, queue[j])
    ensures log[j].before == if j == 0 then start else log[j - 1].after
    ensures j == |log| - 1 ==> log[j].after == end
    decreases |log|
  {
    var k := |log| - 1;
    if j < k {
      AddedAt(start, log[..k], geo, n, cap, queue, log[k].before, j);
    } else if j > 0 {
      AddedLast(start, log[..k], geo, n, cap, queue, log[k].before);
    }
  }

  /** The last record of a non-empty log ends with the log's end arena. */
  lemma AddedLast(start: Arena, log: seq<AddRecord>, geo: Convex, n: nat, cap: nat, queue: seq<QtAgent?>, end: Arena)
    requires AddedInOrder(start, log, geo, n, cap, queue, end) && log != []
    ensures log[|log| - 1].after == end
  {
  }

  /** The arena with node n's queue emptied. */
  function Drained(ns: Arena, n: nat): (r: Arena)
    requires n < |ns|
    ensures |r| == |ns| && r[n].elementsNextFrame == []
  {
    ns[n := ns[n].(elementsNextFrame := [])]
  }

  /** The agents of a growing prefix of a queue. */
  lemma NonNullAgentsStep(s: seq<QtAgent?>, i: nat)
    requires i < |s|
    ensures NonNullAgents(s[..i + 1]) == NonNullAgents(s[..i]) + NonNullAgents([s[i]])
  {
    assert s[..i + 1] == s[..i] + [s[i]];
    NonNullAgentsSnoc(s[..i], s[i]);
  }

  lemma NonNullAgentsWhole(s: seq<QtAgent?>)
    ensures NonNullAgents(s[..|s|]) == NonNullAgents(s)
  {
    assert s[..|s|] == s;
  }

  /** The agents of a queue with one more reference at its end. */
  lemma {:induction false} NonNullAgentsSnoc(s: seq<QtAgent?>, x: QtAgent?)
    ensures NonNullAgents(s + [x]) == NonNullAgents(s) + NonNullAgents([x])
  {
    if s != [] {
      assert (s + [x])[1..] == s[1..] + [x];
      NonNullAgentsSnoc(s[1..], x);
    } else {
      assert s + [x] == [x];
    }
  }

  /**
   * Remove from n on the arena, for agent a centered at p with shape s: the
   * new arena and whether a was found.
   */
  function Removed(ns: Arena, geo: Convex, n: nat, a: QtAgent, p: Point, s: ConvexShape): (r: (Arena, bool))
    requires WellFormed(ns) && n < |ns|
    ensures SameLinks(ns, r.0)
    decreases |ns| - n
  {
    if Holds(ns[n], a) then (ns[n := Drop(ns[n], a).(organizeTree := true)], true)
    else if IsLeaf(ns[n]) then (ns, false)
    else
      var k := ChildIndex(ns, n, p);
      if k >= 0 && geo.shapeVsRect(s, ns[Child(ns, n, k)].boundary) == Fit then
        var (below, found) := Removed(ns, geo, Child(ns, n, k), a, p, s);
        if found then (below[n := below[n].(organizeTree := true)], true) else (below, false)
      else (ns, false)
  }

  /**
   * What Remove from n does, stated on its search path: the agent is taken
   * out of the last node of the path, which succeeds exactly when that node
   * holds it, and then every node of the path, and only those, is flagged;
   * on failure nothing changes.
   */
  ghost predicate Removal(ns: Arena, ns': Arena, geo: Convex, n: nat, a: QtAgent, p: Point, s: ConvexShape, removed: bool)
    requires WellFormed(ns) && n < |ns|
  {
    var path := RemovalPath(ns, geo, n, a, p, s);
    removed == Holds(ns[Last(path)], a) &&
    |ns'| == |ns| &&
    forall i :: 0 <= i < |ns| ==>
      ns'[i] == (if !removed || i !in path then ns[i]
                 else if i == Last(path) then Drop(ns[i], a).(organizeTree := true)
                 else ns[i].(organizeTree := true))
  }

  lemma {:induction false} RemovedAlongPath(ns: Arena, geo: Convex, n: nat, a: QtAgent, p: Point, s: ConvexShape)
    requires WellFormed(ns) && n < |ns|
    ensures var r := Removed(ns, geo, n, a, p, s); Removal(ns, r.0, geo, n, a, p, s, r.1)
    decreases |ns| - n
  {
    if !Holds(ns[n], a) && !IsLeaf(ns[n]) {
      var k := ChildIndex(ns, n, p);
      if k >= 0 && geo.shapeVsRect(s, ns[Child(ns, n, k)].boundary) == Fit {
        RemovedAlongPath(ns, geo, Child(ns, n, k), a, p, s);
        RemovedStep(ns, geo, n, k, a, p, s);
      }
    }
  }

  /** The step of RemovedAlongPath through child k of n. */
  lemma RemovedStep(ns: Arena, geo: Convex, n: nat, k: nat, a: QtAgent, p: Point, s: ConvexShape)
    requires WellFormed(ns) && n < |ns| && !Holds(ns[n], a) && !IsLeaf(ns[n])
    requires k == ChildIndex(ns, n, p) && geo.shapeVsRect(s, ns[Child(ns, n, k)].boundary) == Fit
    requires var c := Child(ns, n, k); var r := Removed(ns, geo, c, a, p, s);
      Removal(ns, r.0, geo, c, a, p, s, r.1)
    ensures var r := Removed(ns, geo, n, a, p, s); Removal(ns, r.0, geo, n, a, p, s, r.1)
  {
    var c := Child(ns, n, k);
    var sub := RemovalPath(ns, geo, c, a, p, s);
    var path := RemovalPath(ns, geo, n, a, p, s);
    assert path == [n] + sub;
    assert n !in sub;
    var (below, found) := Removed(ns, geo, c, a, p, s);
    var r := if found then below[n := below[n].(organizeTree := true)] else below;
    assert Removed(ns, geo, n, a, p, s) == (r, found);
    forall i | 0 <= i < |ns|
      ensures r[i] == (if !found || i !in path then ns[i]
                       else if i == Last(path) then Drop(ns[i], a).(organizeTree := true)
                       else ns[i].(organizeTree := true))
    {
      assert i in path <==> i == n || i in sub;
    }
  }

  /** Remove keeps the storage discipline: it only shortens lists. */
  lemma RemovalBalanced(ns: Arena, geo: Convex, n: nat, a: QtAgent, p: Point, s: ConvexShape, cap: nat)
    requires WellFormed(ns) && n < |ns| && Balanced(ns, cap, {})
    ensures Balanced(Removed(ns, geo, n, a, p, s).0, cap, {})
  {
    RemovedAlongPath(ns, geo, n, a, p, s);
    var (ns', removed) := Removed(ns, geo, n, a, p, s);
    var path := RemovalPath(ns, geo, n, a, p, s);
    forall i | 0 <= i < |ns'|
      ensures IsLeaf(ns'[i]) ==> |ns'[i].elements| <= cap
      ensures !IsLeaf(ns'[i]) ==> ns'[i].elements == []
    {
      assert SameShape(ns[i], ns'[i]);
    }
  }

  /** The arena after ReOrganize from n and the flag of n cleared. */
  function Reorganized(ns: Arena, n: nat): (r: Arena)
    requires WellFormed(ns) && n < |ns|
    ensures |r| == |ns|
  {
    var t := Reorg(ns, n);
    t[n := t[n].(organizeTree := false)]
  }

  /**
   * UpdateQuadtree's reorganisation step, ReOrganize from n and then the
   * flag of n cleared, keeps the arena well formed, rooted and disciplined,
   * keeps every entry and n's queue, and leaves the subtree of n tidy.
   */
  lemma ReorgStep(ns: Arena, n: nat, cap: nat)
    requires WellFormed(ns) && Rooted(ns) && n < |ns| && Balanced(ns, cap, {})
    ensures WellFormed(Reorganized(ns, n)) && Rooted(Reorganized(ns, n))
    ensures Balanced(Reorganized(ns, n), cap, {})
    ensures Entries(Reorganized(ns, n)) == Entries(ns)
    ensures Tidy(Reorganized(ns, n), n)
    ensures Reorganized(ns, n)[n].elementsNextFrame == ns[n].elementsNextFrame
    ensures !Reorganized(ns, n)[n].organizeTree
  {
    ReorgBalanced(ns, n, cap);
    ReorgKeepsAll(ns, n);
    ReorgTidy(ns, n);
    ReorgTrimmed(ns, n);
    var r := Reorg(ns, n);
    forall i | 0 < i < |r|
      ensures r[i].parentNode.NonNull?
    {
      assert Lopped(ns[i], r[i]);
    }
    assert Lopped(ns[0], r[0]);
    var v := r[n].(organizeTree := false);
    Reshape(r, n, v);
    BalancedUpdate(r, n, v, cap, {});
    EntriesSameOwn(r, n, v);
    TidyFlag(r, n, n, false);
  }

  /** ReOrganize keeps the storage discipline: a collapsed node had no elements. */
  lemma ReorgBalanced(ns: Arena, n: nat, cap: nat)
    requires WellFormed(ns) && n < |ns| && Balanced(ns, cap, {})
    ensures Balanced(Reorg(ns, n), cap, {})
  {
    ReorgTrimmed(ns, n);
    var r := Reorg(ns, n);
    forall i | 0 <= i < |r|
      ensures IsLeaf(r[i]) ==> |r[i].elements| <= cap
      ensures !IsLeaf(r[i]) ==> r[i].elements == []
    {
      assert Lopped(ns[i], r[i]);
    }
  }

  /** ReOrganize keeps every entry of the arena, and every flag and queue. */
  lemma ReorgKeepsAll(ns: Arena, n: nat)
    requires WellFormed(ns) && n < |ns|
    ensures Entries(Reorg(ns, n)) == Entries(ns)
    ensures SameBookkeeping(ns, Reorg(ns, n))
  {
    ReorgTrimmed(ns, n);
    TrimmedEntries(ns, Reorg(ns, n), |ns|);
    var r := Reorg(ns, n);
    forall i | 0 <= i < |ns|
      ensures r[i].organizeTree == ns[i].organizeTree && r[i].elementsNextFrame == ns[i].elementsNextFrame
    {
      assert Lopped(ns[i], r[i]);
    }
  }

  lemma {:induction false} TrimmedEntries(ns: Arena, ns': Arena, k: nat)
    requires Trimmed(ns, ns') && k <= |ns|
    ensures EntriesBelow(ns', k) == EntriesBelow(ns, k)
  {
    if k > 0 {
      TrimmedEntries(ns, ns', k - 1);
      assert Lopped(ns[k - 1], ns'[k - 1]);
    }
  }

  /** Tidiness ignores the reorganisation flag. */
  lemma {:induction false} TidyFlag(ns: Arena, n: nat, i: nat, flag: bool)
    requires WellFormed(ns) && n < |ns| && i < |ns| && Tidy(ns, n)
    requires WellFormed(ns[i := ns[i].(organizeTree := flag)])
    ensures Tidy(ns[i := ns[i].(organizeTree := flag)], n)
    decreases |ns| - n
  {
    var ns' := ns[i := ns[i].(organizeTree := flag)];
    if !IsLeaf(ns[n]) {
      forall k | 0 <= k < 4
        ensures Child(ns', n, k) == Child(ns, n, k)
        ensures EmptyLeaf(ns'[Child(ns, n, k)]) == EmptyLeaf(ns[Child(ns, n, k)])
        ensures Tidy(ns', Child(ns, n, k))
      {
        TidyFlag(ns, Child(ns, n, k), i, flag);
      }
    }
  }
}

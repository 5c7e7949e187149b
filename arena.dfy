// The quadtree's nodes, held in an arena: a node is addressed by its index,
// a child always has a larger index than its parent, and the four children of a
// node are four consecutive indices. Splitting appends nodes; collapsing drops a
// node's link to its children, which stay in the arena as unreachable garbage
// (an agent may still name one as its current node).

module QuadtreeArena {
  import opened Geometry
  import opened Agents

  datatype Node = Node(
    depthIndex: nat,
    boundary: Rect,
    parentNode: Nullable<nat>,
    children: Nullable<seq<nat>>,
    elements: seq<QtAgent>,
    overlapElements: seq<QtAgent>,
    organizeTree: bool,
    elementsNextFrame: seq<QtAgent?>)

  type Arena = seq<Node>

  /** A freshly initialised node: empty lists, no children, flag clear. */
  function InitNode(parent: Nullable<nat>, depth: nat, boundary: Rect): Node {
    Node(depth, boundary, parent, Null, [], [], false, [])
  }

  predicate IsLeaf(nd: Node) {
    nd.children.Null?
  }

  /** The links of node i are consistent with the rest of the arena. */
  predicate Linked(ns: Arena, i: nat)
    requires i < |ns|
  {
    var nd := ns[i];
    (nd.parentNode.Null? ==> nd.depthIndex == 0) &&
    (nd.parentNode.NonNull? ==>
       nd.parentNode.value < i && nd.depthIndex == ns[nd.parentNode.value].depthIndex + 1) &&
    (nd.children.NonNull? ==> ChildrenLinked(ns, i, nd.children.value))
  }

  /** cs are four consecutive fresh nodes, the quadrants of node i, pointing back to it. */
  predicate ChildrenLinked(ns: Arena, i: nat, cs: seq<nat>)
    requires i < |ns|
  {
    |cs| == 4 && i < cs[0] && cs[0] + 3 < |ns| &&
    forall k :: 0 <= k < 4 ==>
      cs[k] == cs[0] + k &&
      ns[cs[k]].parentNode == NonNull(i) &&
      ns[cs[k]].boundary == Quadrant(ns[i].boundary, k)
  }

  predicate WellFormed(ns: Arena) {
    forall i :: 0 <= i < |ns| ==> Linked(ns, i)
  }

  /** Child k of the internal node n. */
  function Child(ns: Arena, n: nat, k: nat): (c: nat)
    requires WellFormed(ns) && n < |ns| && !IsLeaf(ns[n]) && k < 4
    ensures n < c < |ns|
    ensures ns[c].parentNode == NonNull(n)
    ensures ns[c].boundary == Quadrant(ns[n].boundary, k)
    ensures ns[c].depthIndex == ns[n].depthIndex + 1
  {
    assert Linked(ns, n);
    var c := ns[n].children.value[k];
    assert Linked(ns, c);
    c
  }

  lemma ChildrenDistinct(ns: Arena, n: nat, j: nat, k: nat)
    requires WellFormed(ns) && n < |ns| && !IsLeaf(ns[n]) && j < 4 && k < 4
    ensures Child(ns, n, j) == Child(ns, n, k) <==> j == k
  {
    assert Linked(ns, n);
  }

  /** The node reached by following parent links up from n. */
  function Root(ns: Arena, n: nat): (r: nat)
    requires WellFormed(ns) && n < |ns|
    ensures r <= n && ns[r].parentNode.Null?
    decreases n
  {
    assert Linked(ns, n);
    if ns[n].parentNode.Null? then n else Root(ns, ns[n].parentNode.value)
  }

  /** Node 0 is the root, and it is the only node without a parent. */
  predicate Rooted(ns: Arena) {
    |ns| > 0 && ns[0].parentNode.Null? && forall i :: 0 < i < |ns| ==> ns[i].parentNode.NonNull?
  }

  // ---------------------------------------------------------------------------
  // What the nodes hold

  /** The agents a node stores itself, in either list. */
  function Own(nd: Node): multiset<QtAgent> {
    multiset(nd.elements) + multiset(nd.overlapElements)
  }

  predicate Holds(nd: Node, a: QtAgent) {
    a in nd.elements || a in nd.overlapElements
  }

  /** Every entry of every node of the arena, garbage included. */
  function Entries(ns: Arena): multiset<QtAgent> {
    EntriesBelow(ns, |ns|)
  }

  /** The entries of the nodes with an index below k. */
  function EntriesBelow(ns: Arena, k: nat): multiset<QtAgent>
    requires k <= |ns|
  {
    if k == 0 then multiset{} else EntriesBelow(ns, k - 1) + Own(ns[k - 1])
  }

  /** The agents stored anywhere in the arena. */
  function Stored(ns: Arena): set<QtAgent> {
    AgentSet(Entries(ns))
  }

  function AgentSet(m: multiset<QtAgent>): set<QtAgent> {
    set a | a in m
  }

  lemma {:induction false} EntriesBelowPrefix(ns: Arena, extra: Arena, k: nat)
    requires k <= |ns|
    ensures EntriesBelow(ns + extra, k) == EntriesBelow(ns, k)
  {
    if k > 0 {
      EntriesBelowPrefix(ns, extra, k - 1);
    }
  }

  /** Appending nodes adds their entries. */
  lemma EntriesAppend(ns: Arena, extra: Arena)
    ensures Entries(ns + extra) == Entries(ns) + Entries(extra)
  {
    EntriesBelowAppend(ns, extra, |extra|, |ns + extra|);
  }

  // The index m is passed alongside k so that the recursive call and the
  // unfolding of EntriesBelow name the same terms.
  lemma {:induction false} EntriesBelowAppend(ns: Arena, extra: Arena, k: nat, m: nat)
    requires k <= |extra| && m == |ns| + k
    ensures EntriesBelow(ns + extra, m) == Entries(ns) + EntriesBelow(extra, k)
  {
    if k == 0 {
      AppendBase(ns, extra, m);
      assert EntriesBelow(ns + extra, m) == Entries(ns) + EntriesBelow(extra, k);
    } else {
      EntriesBelowAppend(ns, extra, k - 1, m - 1);
      assert EntriesBelow(ns + extra, m - 1) == Entries(ns) + EntriesBelow(extra, k - 1);
      AppendStep(ns, extra, k, m);
      assert EntriesBelow(ns + extra, m) == Entries(ns) + EntriesBelow(extra, k);
    }
  }

  lemma AppendBase(ns: Arena, extra: Arena, m: nat)
    requires m == |ns|
    ensures EntriesBelow(ns + extra, m) == Entries(ns) + EntriesBelow(extra, 0)
  {
    EntriesBelowPrefix(ns, extra, |ns|);
    UnionEmpty(Entries(ns));
  }

  lemma AppendStep(ns: Arena, extra: Arena, k: nat, m: nat)
    requires 0 < k <= |extra| && m == |ns| + k
    requires EntriesBelow(ns + extra, m - 1) == Entries(ns) + EntriesBelow(extra, k - 1)
    ensures EntriesBelow(ns + extra, m) == Entries(ns) + EntriesBelow(extra, k)
  {
    assert (ns + extra)[m - 1] == extra[k - 1];
    UnionAssoc(Entries(ns), EntriesBelow(extra, k - 1), Own(extra[k - 1]));
  }

  lemma UnionEmpty(a: multiset<QtAgent>)
    ensures a + multiset{} == a
  {
  }

  lemma UnionAssoc(a: multiset<QtAgent>, b: multiset<QtAgent>, c: multiset<QtAgent>)
    ensures (a + b) + c == a + (b + c)
  {
  }

  /** Adding the same entries to both sides of an equation. */
  lemma MultisetShift(a: multiset<QtAgent>, b: multiset<QtAgent>, x: multiset<QtAgent>,
                      y: multiset<QtAgent>, z: multiset<QtAgent>)
    requires a + x == b + y
    ensures (a + z) + x == (b + z) + y
  {
    assert forall t :: ((a + z) + x)[t] == (a + x)[t] + z[t];
  }

  /** Replacing a node by one holding the same agents keeps the entries. */
  lemma EntriesSameOwn(ns: Arena, i: nat, v: Node)
    requires i < |ns| && Own(v) == Own(ns[i])
    ensures Entries(ns[i := v]) == Entries(ns)
  {
    EntriesBelowSameOwn(ns, ns[i := v], |ns|);
  }

  /** Arenas whose first k nodes hold the same agents have the same entries below k. */
  lemma {:induction false} EntriesBelowSameOwn(ns: Arena, ns': Arena, k: nat)
    requires k <= |ns| == |ns'|
    requires forall j :: 0 <= j < k ==> Own(ns'[j]) == Own(ns[j])
    ensures EntriesBelow(ns', k) == EntriesBelow(ns, k)
  {
    if k > 0 {
      EntriesBelowSameOwn(ns, ns', k - 1);
    }
  }

  lemma SubPlus(a: multiset<QtAgent>, b: multiset<QtAgent>)
    ensures a <= a + b
  {
    forall x
      ensures a[x] <= (a + b)[x]
    {
    }
  }

  /**
   * Arenas that differ only at node i, where ns' holds plus more and minus
   * less than ns, differ below k by the same amounts.
   */
  lemma {:induction false} EntriesBelowChange(ns: Arena, ns': Arena, i: nat, plus: multiset<QtAgent>,
                                              minus: multiset<QtAgent>, k: nat)
    requires i < k <= |ns| == |ns'| && Own(ns'[i]) + minus == Own(ns[i]) + plus
    requires forall j :: 0 <= j < k && j != i ==> Own(ns'[j]) == Own(ns[j])
    ensures EntriesBelow(ns', k) + minus == EntriesBelow(ns, k) + plus
  {
    if k - 1 == i {
      EntriesBelowSameOwn(ns, ns', i);
      var e := EntriesBelow(ns, i);
      assert (e + Own(ns'[i])) + minus == e + (Own(ns'[i]) + minus);
      assert (e + Own(ns[i])) + plus == e + (Own(ns[i]) + plus);
    } else {
      EntriesBelowChange(ns, ns', i, plus, minus, k - 1);
      MultisetShift(EntriesBelow(ns', k - 1), EntriesBelow(ns, k - 1), minus, plus, Own(ns[k - 1]));
    }
  }

  /** Replacing node i by v, where v holds plus more and minus less than node i. */
  lemma EntriesChange(ns: Arena, i: nat, v: Node, plus: multiset<QtAgent>, minus: multiset<QtAgent>)
    requires i < |ns| && Own(v) + minus == Own(ns[i]) + plus
    ensures Entries(ns[i := v]) + minus == Entries(ns) + plus
  {
    EntriesBelowChange(ns, ns[i := v], i, plus, minus, |ns|);
  }

  lemma {:induction false} OwnInEntriesBelow(ns: Arena, i: nat, k: nat)
    requires i < k <= |ns|
    ensures Own(ns[i]) <= EntriesBelow(ns, k)
  {
    if i < k - 1 {
      OwnInEntriesBelow(ns, i, k - 1);
    }
  }

  lemma OwnInEntries(ns: Arena, i: nat)
    requires i < |ns|
    ensures Own(ns[i]) <= Entries(ns)
  {
    OwnInEntriesBelow(ns, i, |ns|);
  }

  function EmptyNodes(k: nat, parent: nat, depth: nat, r: Rect): (ns: Arena)
    requires k <= 4
    ensures |ns| == k && Entries(ns) == multiset{}
    ensures forall j :: 0 <= j < k ==> ns[j] == InitNode(NonNull(parent), depth, Quadrant(r, j))
  {
    if k == 0 then []
    else
      var front := EmptyNodes(k - 1, parent, depth, r);
      var ns := front + [InitNode(NonNull(parent), depth, Quadrant(r, k - 1))];
      var last := InitNode(NonNull(parent), depth, Quadrant(r, k - 1));
      EntriesAppend(front, [last]);
      assert Entries([last]) == EntriesBelow([last], 0) + Own(last);
      ns
  }

  /** Multiset containment bounds the stored agents. */
  lemma StoredBound(ns: Arena, bound: multiset<QtAgent>)
    requires Entries(ns) <= bound
    ensures Stored(ns) <= AgentSet(bound)
  {
  }

  lemma StoredMono(ns: Arena, ns': Arena)
    requires Entries(ns) <= Entries(ns')
    ensures Stored(ns) <= Stored(ns')
  {
  }

  /** Bounds on entries chain along the prefixes of a sequence of stored agents. */
  lemma Accumulate(x: multiset<QtAgent>, y: multiset<QtAgent>, z: multiset<QtAgent>, s: seq<QtAgent>, i: nat)
    requires i < |s| && x <= y + multiset{s[i]} && y <= z + multiset(s[..i])
    ensures x <= z + multiset(s[..i + 1])
  {
    assert s[..i + 1] == s[..i] + [s[i]];
    assert multiset(s[..i + 1]) == multiset(s[..i]) + multiset{s[i]};
  }

  lemma WholePrefix(s: seq<QtAgent>)
    ensures multiset(s[..|s|]) == multiset(s)
  {
    assert s[..|s|] == s;
  }

  lemma Cancel(a: multiset<QtAgent>, b: multiset<QtAgent>, c: multiset<QtAgent>)
    requires a + c <= b + c
    ensures a <= b
  {
    forall x
      ensures a[x] <= b[x]
    {
      assert (a + c)[x] <= (b + c)[x];
    }
  }

  /**
   * Putting agent a into node i, in either list and with nothing else of the
   * node changed but possibly its children when it is a leaf, keeps the arena
   * well formed and rooted, and adds exactly a to what is stored.
   */
  lemma PutEntry(ns: Arena, i: nat, v: Node, a: QtAgent)
    requires WellFormed(ns) && Rooted(ns) && i < |ns| && SameShape(ns[i], v)
    requires Own(v) == Own(ns[i]) + multiset{a}
    requires !IsLeaf(ns[i]) ==> v.elements == ns[i].elements
    requires v.organizeTree == ns[i].organizeTree && v.elementsNextFrame == ns[i].elementsNextFrame
    ensures WellFormed(ns[i := v]) && Rooted(ns[i := v])
    ensures Grown(ns, ns[i := v]) && SameBookkeeping(ns, ns[i := v])
    ensures Entries(ns[i := v]) == Entries(ns) + multiset{a}
    ensures Stored(ns[i := v]) == Stored(ns) + {a}
  {
    Reshape(ns, i, v);
    EntriesChange(ns, i, v, multiset{a}, multiset{});
    AgentSetAdd(Entries(ns), a);
    GrownUpdate(ns, i, v);
  }

  /** Replacing node i by a node of the same shape and bookkeeping, with the same elements unless it is a leaf. */
  lemma GrownUpdate(ns: Arena, i: nat, v: Node)
    requires i < |ns| && SameShape(ns[i], v) && (!IsLeaf(ns[i]) ==> v.elements == ns[i].elements)
    requires v.organizeTree == ns[i].organizeTree && v.elementsNextFrame == ns[i].elementsNextFrame
    ensures Grown(ns, ns[i := v]) && SameBookkeeping(ns, ns[i := v])
  {
    var ns' := ns[i := v];
    forall j | 0 <= j < |ns|
      ensures Kept(ns[j], ns'[j])
      ensures ns'[j].organizeTree == ns[j].organizeTree && ns'[j].elementsNextFrame == ns[j].elementsNextFrame
    {
    }
  }

  lemma AgentSetAdd(m: multiset<QtAgent>, a: QtAgent)
    ensures AgentSet(m + multiset{a}) == AgentSet(m) + {a}
  {
  }

  // ---------------------------------------------------------------------------
  // Capacity

  /**
   * The storage discipline: a leaf holds at most cap elements and an internal
   * node holds none, except the nodes in pending, internal nodes that are in
   * the middle of handing their elements down to their children.
   */
  predicate Balanced(ns: Arena, cap: nat, pending: set<nat>) {
    (forall i :: i in pending ==> i < |ns|) &&
    forall i :: 0 <= i < |ns| ==>
      (IsLeaf(ns[i]) ==> i !in pending && |ns[i].elements| <= cap) &&
      (!IsLeaf(ns[i]) && i !in pending ==> ns[i].elements == [])
  }

  /** Replacing one node by a node of the same shape that keeps the discipline keeps it for the arena. */
  lemma BalancedUpdate(ns: Arena, i: nat, v: Node, cap: nat, pending: set<nat>)
    requires Balanced(ns, cap, pending) && i < |ns| && SameShape(ns[i], v)
    requires IsLeaf(v) ==> |v.elements| <= cap
    requires !IsLeaf(v) && i !in pending ==> v.elements == []
    ensures Balanced(ns[i := v], cap, pending)
  {
  }

  /** A pending internal node that has handed all its elements down is pending no more. */
  lemma Settle(ns: Arena, cap: nat, pending: set<nat>, n: nat)
    requires Balanced(ns, cap, pending + {n}) && n < |ns| && !IsLeaf(ns[n]) && ns[n].elements == []
    ensures Balanced(ns, cap, pending - {n})
  {
  }

  /** The storage discipline everywhere except possibly at node n. */
  predicate BalancedBut(ns: Arena, cap: nat, pending: set<nat>, n: nat) {
    (forall i :: i in pending ==> i < |ns|) &&
    forall i :: 0 <= i < |ns| && i != n ==>
      (IsLeaf(ns[i]) ==> i !in pending && |ns[i].elements| <= cap) &&
      (!IsLeaf(ns[i]) && i !in pending ==> ns[i].elements == [])
  }

  lemma Unbalance(ns: Arena, i: nat, v: Node, cap: nat, pending: set<nat>)
    requires Balanced(ns, cap, pending) && i < |ns| && SameShape(ns[i], v)
    ensures BalancedBut(ns[i := v], cap, pending, i)
  {
  }

  // ---------------------------------------------------------------------------
  // Shape-preserving updates

  /** Two nodes with the same links (depth, boundary, parent, children). */
  predicate SameShape(a: Node, b: Node) {
    a.depthIndex == b.depthIndex && a.boundary == b.boundary &&
    a.parentNode == b.parentNode && a.children == b.children
  }

  lemma SameShapeWellFormed(ns: Arena, ns': Arena)
    requires WellFormed(ns) && |ns| == |ns'|
    requires forall i :: 0 <= i < |ns| ==> SameShape(ns[i], ns'[i])
    ensures WellFormed(ns')
  {
    forall i | 0 <= i < |ns'|
      ensures Linked(ns', i)
    {
      assert Linked(ns, i);
      if ns[i].children.NonNull? {
        var cs := ns[i].children.value;
        assert ChildrenLinked(ns, i, cs);
        forall k | 0 <= k < 4
          ensures ns'[cs[k]].parentNode == NonNull(i)
          ensures ns'[cs[k]].boundary == Quadrant(ns'[i].boundary, k)
        {
          assert SameShape(ns[cs[k]], ns'[cs[k]]);
        }
      }
    }
  }

  /** Routing and containment only look at links, so they agree on arenas of the same shape. */
  predicate SameLinks(ns: Arena, ns': Arena) {
    |ns| == |ns'| && forall i :: 0 <= i < |ns| ==> SameShape(ns[i], ns'[i])
  }

  /** Replacing one node by a node of the same shape keeps the arena well formed and rooted. */
  lemma Reshape(ns: Arena, i: nat, v: Node)
    requires WellFormed(ns) && Rooted(ns) && i < |ns| && SameShape(ns[i], v)
    ensures WellFormed(ns[i := v]) && Rooted(ns[i := v]) && SameLinks(ns, ns[i := v])
  {
    SameShapeWellFormed(ns, ns[i := v]);
  }

  /**
   * How the nodes that already exist may evolve under Add: depth, boundary
   * and parent never change, an internal node keeps its children and its
   * elements, and new nodes only appear at the end.
   */
  predicate Kept(a: Node, b: Node) {
    b.depthIndex == a.depthIndex && b.boundary == a.boundary && b.parentNode == a.parentNode &&
    (!IsLeaf(a) ==> b.children == a.children && b.elements == a.elements)
  }

  predicate Grown(ns: Arena, ns': Arena) {
    |ns| <= |ns'| && forall i :: 0 <= i < |ns| ==> Kept(ns[i], ns'[i])
  }

  /** Flags and queues are bookkeeping that Add leaves alone. */
  predicate SameBookkeeping(ns: Arena, ns': Arena) {
    |ns| <= |ns'| &&
    forall i :: 0 <= i < |ns| ==>
      ns'[i].organizeTree == ns[i].organizeTree && ns'[i].elementsNextFrame == ns[i].elementsNextFrame
  }

  lemma GrownTransitive(a: Arena, b: Arena, c: Arena)
    requires Grown(a, b) && Grown(b, c)
    ensures Grown(a, c)
  {
    forall i | 0 <= i < |a|
      ensures Kept(a[i], c[i])
    {
      assert Kept(a[i], b[i]) && Kept(b[i], c[i]);
    }
  }

  /** Changing a node that was a leaf in a, keeping its shape and bookkeeping, stays within Grown and SameBookkeeping. */
  lemma GrownAtLeaf(a: Arena, b: Arena, n: nat, w: Node)
    requires Grown(a, b) && SameBookkeeping(a, b) && n < |a| && IsLeaf(a[n]) && SameShape(b[n], w)
    requires w.organizeTree == b[n].organizeTree && w.elementsNextFrame == b[n].elementsNextFrame
    ensures Grown(a, b[n := w]) && SameBookkeeping(a, b[n := w])
  {
  }

  /** Changing only the bookkeeping of a node stays within Grown. */
  lemma GrownBookkeeping(a: Arena, b: Arena, n: nat, w: Node)
    requires Grown(a, b) && n < |b| && SameShape(b[n], w) && w.elements == b[n].elements
    ensures Grown(a, b[n := w])
  {
  }

  lemma BookkeepingTransitive(a: Arena, b: Arena, c: Arena)
    requires SameBookkeeping(a, b) && SameBookkeeping(b, c)
    ensures SameBookkeeping(a, c)
  {
  }
}

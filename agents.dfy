// The agents a quadtree stores: objects with a center and a convex shape
// (both maintained by the host), the position bookkeeping that decides when an
// agent has to be relocated, and the node the tree last stored it in.

module Agents {
  import opened Geometry

  class QtAgent {
    /** The agent's center, as the host reports it. */
    var center: Point
    /** The agent's shape, as the host reports it. */
    var shape: ConvexShape
    var lastPosition: Point
    var newPosition: Point
    /** The node (an index into the tree's arena) that last stored this agent. */
    var currentNode: Nullable<nat>

    constructor (center: Point, shape: ConvexShape)
      ensures this.center == center && this.shape == shape
      ensures currentNode == Null
      ensures lastPosition == newPosition
    {
      this.center := center;
      this.shape := shape;
      lastPosition := Point(0.0, 0.0);
      newPosition := Point(0.0, 0.0);
      currentNode := Null;
    }

    /**
     * Start of life: the current position is both the new and the last one,
     * so the next relocation step has nothing to do until the agent moves.
     */
    method Start(position: Point)
      modifies this`newPosition, this`lastPosition
      ensures newPosition == position && lastPosition == position
    {
      newPosition := position;
      lastPosition := newPosition;
    }

    /** Per-frame refresh: only the new position is updated. */
    method RefreshPosition(position: Point)
      modifies this`newPosition
      ensures newPosition == position
    {
      newPosition := position;
    }

    /** Hook fired by a node that has just stored this agent. */
    method AfterAddToQuadtreeNode(node: nat)
      modifies this`currentNode
      ensures currentNode == NonNull(node)
    {
      currentNode := NonNull(node);
    }
  }

  /** The agents of a list of nullable agent references, nulls skipped. */
  function NonNullAgents(s: seq<QtAgent?>): multiset<QtAgent> {
    if s == [] then multiset{}
    else (if s[0] == null then multiset{} else multiset{s[0]}) + NonNullAgents(s[1..])
  }

  /** NonNullAgents keeps exactly the non-null references of the list, each as often as it occurs. */
  lemma {:induction false} NonNullAgentsCount(s: seq<QtAgent?>, a: QtAgent)
    ensures NonNullAgents(s)[a] == multiset(s)[a]
  {
    if s != [] {
      NonNullAgentsCount(s[1..], a);
      assert s == [s[0]] + s[1..];
    }
  }

  /** The agents of a list of nullable agent references, as a set. */
  function Present(s: seq<QtAgent?>): set<QtAgent> {
    set a: QtAgent | a in s
  }

  /** The agent, as a set, or nothing for a null reference. */
  function Opt(a: QtAgent?): set<QtAgent> {
    if a == null then {} else {a}
  }
}

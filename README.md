# Quadtree for 2D agents, modelled in Dafny

The system is a region quadtree for a Unity game. It keeps moving 2D agents in nodes so that neighbour
searches and range queries only look at nearby agents. Each node has:

- a rectangular boundary;
- a capacity-bounded `elements` list, used in leaves;
- an `overlapElements` list for agents that straddle the node's children;
- optionally, exactly four children (NW, NE, SE, SW);
- a back-pointer to its parent;
- a reorganisation flag;
- a queue of agents to add on the next frame.

An agent is routed from a node by its center. The first child whose boundary contains the center is
picked, and the agent's shape is classified against that child as Fit, Overlap or None:

- Fit descends into the child.
- Overlap keeps the agent in the node's overlap list.
- None refuses the agent.

A leaf that overflows splits and hands its elements down again. ReOrganize drops four children that are
all empty leaves. Every frame, each agent runs a relocation step that removes it from its current node
and adds it again where it now belongs.

The repository holds three generations of the tree:

- the current one (`Assets/Script/Quadtree/QuadtreeNode/QuadtreeNode.cs`, with the agent in
  `Assets/Script/Quadtree/QuadtreeAgent/QtAgent.cs`);
- an intermediate one (`Assets/Script/Quadtree/QuadtreeNode.cs`, with the agent in
  `Assets/Script/Quadtree/Agent/QtAgent.cs`);
- the original one (`Assets/Quadtree/Quadtree.cs`, which also holds the `NodeBound` rectangle
  class, with the point agent in `Assets/Quadtree/QtPointAgent.cs`).

Where two generations have the same code, one Dafny member models both, and the table below cites each.

How the model is built:

- **The tree is an arena.** Class `QuadtreeNodes.Quadtree`, and `OriginalTree.OriginalQuadtree` for the
  first generation, holds `nodes: seq<Node>`. A node is named by its index, and node 0 is the root.
  Split appends the four children after every existing node, so a parent's index is below its
  children's. Children dropped by ReOrganize stay in the arena as unreachable nodes, as the C# objects do
  while an agent still refers to them.
- **The tree methods are imperative.** Add, Split, Remove, ReOrganize, UpdateQuadtree and AddNextFrame
  change `nodes` in place. Each is proved against a function or predicate on the arena (`Route`,
  `SplitAt`, `Removed`, `Reorg`), and lemmas state the source's promises about those.
- **The read-only queries are functions.** TotalElements, GetAllElements, FindNode, FindElements,
  QueryRange and QueryElements recurse over the arena and are modelled as functions. Completeness and
  soundness lemmas state what a query returns: every agent held by a node the search reaches, and only
  those.
- **Agents are objects.** Class `Agents.QtAgent` has `newPosition`, `lastPosition` and `currentNode`. The
  after-add hook writes `currentNode`. The relocation steps (`Relocation.UpdateAgentInQuadtree`, and
  `Relocation.UpdateAgentNode` for the intermediate generation) are methods that drive Remove and Add on
  the tree.
- **The shape library is a parameter.** Shape classification comes from a geometry library that is not
  part of this model. It is a parameter of the tree: `Geometry.Convex` holds a shape-versus-rectangle
  and a shape-versus-shape classifier.
- **Point containment is concrete.** It follows `NodeBound.ContainPoint2D`: min/max corners, edges
  included. Coordinates are `real`, so halving a boundary is exact.
- **Add may not terminate, so it carries fuel.** With more than capacity agents at one center, an
  overflowing leaf splits forever. Add therefore takes a `fuel` argument that only the re-adds of a split
  consume, and answers `StackExhausted` when the fuel runs out. Every other path of Add decreases by the
  node index.

## Model

| member | source | states |
|---|---|---|
| Geometry.ContainPoint2DMeaning | Assets/Quadtree/Quadtree.cs:163-170 | a point is inside a rectangle exactly when its x lies between the two vertical edges and its y between the two horizontal ones, edges included, whatever the signs of width and height |
| Geometry.Quadrant | Assets/Script/Quadtree/QuadtreeNode/QuadtreeNode.cs:280-303 | each quadrant a split builds has half the parent's width and half its height |
| Geometry.QuadrantInside | Assets/Script/Quadtree/QuadtreeNode/QuadtreeNode.cs:280-303 | every point of a quadrant lies in the parent rectangle |
| Geometry.QuadrantsCover | Assets/Script/Quadtree/QuadtreeNode/QuadtreeNode.cs:280-303 | some quadrant contains a point if and only if the parent does, so the four children cover their parent exactly |
| Geometry.QuadrantIndex | Assets/Script/Quadtree/QuadtreeNode/QuadtreeNode.cs:344-366 | the index of the first quadrant in NW, NE, SE, SW order that contains the point; -1 exactly when none does |
| NodeBounds.NodeBound.constructor | Assets/Quadtree/Quadtree.cs:142-148 | the corner is stored as given and the width and height as absolute values; the cached center is not computed and keeps its default |
| NodeBounds.NodeBound.FromVectors | Assets/Quadtree/Quadtree.cs:150-156 | the same, from a position vector and a size vector |
| NodeBounds.NodeBound.SetX | Assets/Quadtree/Quadtree.cs:11-21 | x takes the new value, the other sides are kept, and the cached center is the middle of the new rectangle |
| NodeBounds.NodeBound.SetY | Assets/Quadtree/Quadtree.cs:24-34 | y takes the new value, the other sides are kept, and the cached center is the middle of the new rectangle |
| NodeBounds.NodeBound.SetWidth | Assets/Quadtree/Quadtree.cs:37-47 | the width is stored as given, sign included, the other sides are kept, and the center is recomputed |
| NodeBounds.NodeBound.SetHeight | Assets/Quadtree/Quadtree.cs:50-60 | the height is stored as given, sign included, the other sides are kept, and the center is recomputed |
| NodeBounds.NodeBound.CalculateCenter | Assets/Quadtree/Quadtree.cs:158-161 | afterwards the cached center is (x + width/2, y - height/2) |
| NodeBounds.NodeBound.XMin | Assets/Quadtree/Quadtree.cs:87-93 | the smaller of the two vertical edges, so never above x or x + width |
| NodeBounds.NodeBound.XMax | Assets/Quadtree/Quadtree.cs:95-101 | the larger of the two vertical edges |
| NodeBounds.NodeBound.YMin | Assets/Quadtree/Quadtree.cs:103-109 | the smaller of the two horizontal edges, y and y - height |
| NodeBounds.NodeBound.YMax | Assets/Quadtree/Quadtree.cs:111-117 | the larger of the two horizontal edges |
| NodeBounds.NonNegativeExtent | Assets/Quadtree/Quadtree.cs:87-117 | with a non-negative size, xMin = x, xMax = x + width, yMax = y and yMin = y - height |
| NodeBounds.NodeBound.ContainPoint2D | Assets/Quadtree/Quadtree.cs:163-170 | true exactly when the point lies in [xMin, xMax] x [yMin, yMax], edges included |
| NodeBounds.ContainPoint2DAgrees | Assets/Quadtree/Quadtree.cs:163-170 | the object's containment test agrees with the value-level test that the tree uses for node boundaries |
| NodeBounds.SetBoundaryGuard | Assets/Quadtree/Quadtree.cs:467-473 | the zero-boundary guard compares by reference with a freshly built bound, so every bound is accepted, an all-zero one included; this holds because `zero` (lines 135-140) builds a new object on each read |
| PointAgents.IntersectWithBoundary | Assets/Quadtree/QtPointAgent.cs:20-28 | Fit exactly when the boundary contains the point, otherwise None, and never Overlap |
| PointAgents.PointRoutesToLeaf | Assets/Quadtree/QtPointAgent.cs:20-28 | with the point classifier, an agent inside a node is routed by Add to a leaf's elements that contains it, never to an overlap list and never refused |
| PointAgents.PointOutsideRefused | Assets/Quadtree/QtPointAgent.cs:20-28 | with its point outside a node, the agent is refused by an internal node, and only a leaf takes it |
| Agents.QtAgent.Start | Assets/Script/Quadtree/QuadtreeAgent/QtAgent.cs:87-93 | the new and the last position are both the current position, so relocation waits for a move; the earlier agent generation (`Assets/Script/Quadtree/Agent/QtAgent.cs`, lines 147-151) does the same in AgentStart |
| Agents.QtAgent.RefreshPosition | Assets/Script/Quadtree/Agent/QtAgent.cs:153-156 | AgentUpdate refreshes only the new position |
| Agents.QtAgent.AfterAddToQuadtreeNode | Assets/Script/Quadtree/QuadtreeAgent/QtAgent.cs:219-223 | the agent's current node becomes the node that stored it; the earlier agent generation (`Assets/Script/Quadtree/Agent/QtAgent.cs`, lines 167-170) does the same |
| Agents.NonNullAgentsCount | Assets/Script/Quadtree/QuadtreeNode/QuadtreeNode.cs:485-491 | the agents a queue contributes are its non-null references, each as often as it is queued |
| QuadtreeArena.Child | Assets/Script/Quadtree/QuadtreeNode/QuadtreeNode.cs:280-303 | child k of a split node lies after it in the arena, has it as parent, is quadrant k of its boundary, and is one level deeper |
| QuadtreeArena.ChildrenDistinct | Assets/Script/Quadtree/QuadtreeNode/QuadtreeNode.cs:280-303 | the four children are four different nodes |
| QuadtreeArena.Root | Assets/Script/Quadtree/QuadtreeNode/QuadtreeNode.cs:464-477 | following parent links up ends at a node without a parent |
| QuadtreeArena.EmptyNodes | Assets/Script/Quadtree/QuadtreeNode/QuadtreeNode.cs:237-250 | fresh children have empty lists, the given parent, depth and quadrant, and hold no agent |
| QuadtreeArena.PutEntry | Assets/Script/Quadtree/QuadtreeNode/QuadtreeNode.cs:570-593 | storing an agent in one list of one node keeps the tree well formed and adds exactly that agent to what the tree holds |
| Routing.ChildIndex | Assets/Script/Quadtree/QuadtreeNode/QuadtreeNode.cs:344-366 | IndexOfNode: the first child whose boundary contains the center, or -1 for a leaf or when no child does; the intermediate tree (`Assets/Script/Quadtree/QuadtreeNode.cs`, lines 361-377) does the same; the original tree (`Assets/Quadtree/Quadtree.cs`, lines 501-517) does the same |
| Routing.ChildIndexInside | Assets/Script/Quadtree/QuadtreeNode/QuadtreeNode.cs:344-366 | on a split node a child is found exactly when the node itself contains the center |
| Routing.Route | Assets/Script/Quadtree/QuadtreeNode/QuadtreeNode.cs:527-588 | Add's descent ends in a leaf of the subtree (elements) or at an internal node of it (overlap list), or refuses the agent; the intermediate tree (`Assets/Script/Quadtree/QuadtreeNode.cs`, lines 438-499) does the same |
| Routing.RouteAcceptsInside | Assets/Script/Quadtree/QuadtreeNode/QuadtreeNode.cs:527-588 | with a classifier that never calls a shape disjoint from a box around its center, an agent whose center is in the node is never refused |
| Routing.RouteSameLinks | Assets/Script/Quadtree/QuadtreeNode/QuadtreeNode.cs:527-588 | routing depends only on boundaries and child links, never on the lists |
| Routing.FindNode | Assets/Script/Quadtree/QuadtreeNode/QuadtreeNode.cs:692-725 | a node is returned only when the center lies in the start node and the returned node's own lists hold the agent; the intermediate tree (`Assets/Script/Quadtree/QuadtreeNode.cs`, lines 684-717) does the same |
| Routing.FindAfterRoute | Assets/Script/Quadtree/QuadtreeNode/QuadtreeNode.cs:692-725 | round trip: an agent stored where Add's routing put it is found there by FindNode from the same node |
| Routing.RemovalPath | Assets/Script/Quadtree/QuadtreeNode/QuadtreeNode.cs:642-685 | Remove's search path starts at the node, goes strictly down, and passes only nodes not holding the agent before its last node |
| Routing.RemoveAfterRoute | Assets/Script/Quadtree/QuadtreeNode/QuadtreeNode.cs:642-685 | round trip: an agent stored only where Add's routing put it is exactly where Remove's search ends |
| Routing.RemoveFirst | Assets/Script/Quadtree/QuadtreeNode/QuadtreeNode.cs:647-653 | List.Remove takes out one occurrence when there is one, and otherwise leaves the list alone |
| Routing.RemoveFirstAt | Assets/Script/Quadtree/QuadtreeNode/QuadtreeNode.cs:647-653 | List.Remove takes out the first occurrence: when the agent sits at index i and nowhere before, the answer is the list without index i, the rest in order |
| Routing.RemoveFirstAppended | Assets/Script/Quadtree/QuadtreeNode/QuadtreeNode.cs:642-685 | removing an agent that was just appended, and was not there before, gives the list back |
| Counting.AllElementsAreSubtreeEntries | Assets/Script/Quadtree/QuadtreeNode/QuadtreeNode.cs:375-399 | GetAllElements with both flags lists every entry of the subtree as often as it is stored, and as many entries as TotalElements counts |
| Counting.ChildrenElementsAreEntries | Assets/Script/Quadtree/QuadtreeNode/QuadtreeNode.cs:375-399 | the children's part of GetAllElements lists exactly the entries of their subtrees |
| Counting.CountIsSubtreeSize | Assets/Script/Quadtree/QuadtreeNode/QuadtreeNode.cs:309-335 | the full count is own elements plus overlap entries plus everything below |
| QuadtreeNodes.Quadtree.constructor | Assets/Script/Quadtree/QuadtreeNode/QuadtreeNode.cs:223-230 | createRootQuadtree: one empty leaf with the given boundary, holding nothing, within the storage discipline; the intermediate tree (`Assets/Script/Quadtree/QuadtreeNode.cs`, lines 310-317) does the same |
| QuadtreeNodes.Quadtree.IndexOfNode | Assets/Script/Quadtree/QuadtreeNode/QuadtreeNode.cs:344-366 | -1 for a null agent, otherwise the first child containing the agent's center; the intermediate tree (lines 361-377 of its `QuadtreeNode.cs`) does the same |
| QuadtreeNodes.Quadtree.RootQuadtree | Assets/Script/Quadtree/QuadtreeNode/QuadtreeNode.cs:464-477 | the parent-climbing loop ends at the root; the intermediate tree (lines 382-395 of its `QuadtreeNode.cs`) does the same |
| QuadtreeNodes.Quadtree.TotalElements | Assets/Script/Quadtree/QuadtreeNode/QuadtreeNode.cs:309-335 | the loop computes the count: own elements, overlap entries when asked, and the children's full counts when deepNode holds; the intermediate tree (`Assets/Script/Quadtree/QuadtreeNode.cs`, lines 333-352) does the same |
| QuadtreeNodes.Quadtree.GetAllElements | Assets/Script/Quadtree/QuadtreeNode/QuadtreeNode.cs:375-399 | the loop builds the children's lists first, then the node's elements, then its overlap entries when asked |
| QuadtreeNodes.Quadtree.Split | Assets/Script/Quadtree/QuadtreeNode/QuadtreeNode.cs:266-304 | a leaf gets four new empty children, the quadrants in NW, NE, SE, SW order one level deeper; a node with children is left alone; what the tree holds is unchanged; the intermediate Split (lines 600-640 of its `QuadtreeNode.cs`) builds the same quadrants |
| QuadtreeNodes.Quadtree.Add | Assets/Script/Quadtree/QuadtreeNode/QuadtreeNode.cs:527-637 | a null agent is refused with nothing changed; otherwise Add did what the routing says (refused, overlap list, leaf with room, or split leaf left with no elements); the agent's current node is set exactly when stored; the storage discipline holds; nothing but the agent is added; the intermediate Add (`Assets/Script/Quadtree/QuadtreeNode.cs`, lines 438-546) behaves the same once its before-add hook has brought the agent's shape up to date |
| QuadtreeNodes.Quadtree.AddInternal | Assets/Script/Quadtree/QuadtreeNode/QuadtreeNode.cs:543-588 | an internal node does what the routing from it says: refused with nothing changed when no child holds the center or the shape misses that child, passed down on Fit, kept in its overlap list on Overlap |
| QuadtreeNodes.Quadtree.AppendElement | Assets/Script/Quadtree/QuadtreeNode/QuadtreeNode.cs:590-593 | the leaf's elements gain the agent at their end, the agent records the leaf, exactly that agent is added, and the discipline can break only at that leaf |
| QuadtreeNodes.Quadtree.AddOverlap | Assets/Script/Quadtree/QuadtreeNode/QuadtreeNode.cs:570-576 | Overlap: the agent is appended to the node's overlap list, the hook records the node, and exactly that agent is added |
| QuadtreeNodes.Quadtree.AddToLeaf | Assets/Script/Quadtree/QuadtreeNode/QuadtreeNode.cs:590-636 | a leaf with room appends the agent and records itself in the agent; a full one ends internal with no elements |
| QuadtreeNodes.ClearSpread | Assets/Script/Quadtree/QuadtreeNode/QuadtreeNode.cs:633 | once the split node's elements have been handed down, clearing its list leaves it internal and empty, restores the storage discipline, and leaves no more entries or stored agents than before the split |
| QuadtreeNodes.Quadtree.Distribute | Assets/Script/Quadtree/QuadtreeNode/QuadtreeNode.cs:596-634 | after the split and the re-adds the node is internal with no elements, the discipline holds, and no agent is added |
| QuadtreeNodes.Quadtree.ReaddAll | Assets/Script/Quadtree/QuadtreeNode/QuadtreeNode.cs:601-614 | re-adding every element of the list adds nothing beyond those elements and keeps the discipline |
| QuadtreeNodes.Quadtree.Readd | Assets/Script/Quadtree/QuadtreeNode/QuadtreeNode.cs:605-613 | one element handed down, with the root as fallback, adds at most that element |
| QuadtreeNodes.Quadtree.Remove | Assets/Script/Quadtree/QuadtreeNode/QuadtreeNode.cs:642-685 | a null agent changes nothing; otherwise the new tree and the answer are those of `Removed`; the intermediate Remove (lines 551-594 of its `QuadtreeNode.cs`) is the same |
| QuadtreeNodes.Removed | Assets/Script/Quadtree/QuadtreeNode/QuadtreeNode.cs:642-685 | Remove never changes boundaries or child links |
| QuadtreeNodes.RemovedAlongPath | Assets/Script/Quadtree/QuadtreeNode/QuadtreeNode.cs:642-685 | the agent is taken out of the last node of the search path, which succeeds exactly when that node holds it; on success every node of the path from the called node down, and no other node, is flagged; on failure nothing changes |
| QuadtreeNodes.RemovalBalanced | Assets/Script/Quadtree/QuadtreeNode/QuadtreeNode.cs:642-685 | Remove keeps the storage discipline |
| Relocation.RemovedEntries | Assets/Script/Quadtree/QuadtreeNode/QuadtreeNode.cs:642-685 | Remove takes copies of the agent out of the tree exactly when it reports success, and leaves every other agent's count alone |
| QuadtreeNodes.Quadtree.ReOrganize | Assets/Script/Quadtree/QuadtreeNode/QuadtreeNode.cs:406-457 | the loop leaves the tree that `Reorg` describes; the intermediate ReOrganize (lines 647-676 of its `QuadtreeNode.cs`) is the same |
| Reorganizing.Reorg | Assets/Script/Quadtree/QuadtreeNode/QuadtreeNode.cs:406-457 | ReOrganize keeps the tree well formed and touches no node before the start node |
| Reorganizing.ReorgTrimmed | Assets/Script/Quadtree/QuadtreeNode/QuadtreeNode.cs:406-457 | ReOrganize only ever drops child links |
| Reorganizing.ReorgFrame | Assets/Script/Quadtree/QuadtreeNode/QuadtreeNode.cs:406-457 | ReOrganize changes only nodes under the start node |
| Reorganizing.ReorgCollapse | Assets/Script/Quadtree/QuadtreeNode/QuadtreeNode.cs:406-457 | after ReOrganize, a node has lost its children exactly when each of the four is an empty leaf (post-order); the intermediate tree (`Assets/Script/Quadtree/QuadtreeNode.cs`, lines 647-676) does the same |
| Reorganizing.ReorgChildrenClean | Assets/Script/Quadtree/QuadtreeNode/QuadtreeNode.cs:410-431 | the running all-empty flag says exactly that every child reorganized so far is an empty leaf |
| Reorganizing.ReorgPruned | Assets/Script/Quadtree/QuadtreeNode/QuadtreeNode.cs:406-457 | links are dropped only where the subtree held nothing below the node |
| Reorganizing.PrunedKeepsSubtree | Assets/Script/Quadtree/QuadtreeNode/QuadtreeNode.cs:406-457 | such pruning keeps what every subtree holds |
| Reorganizing.ReorgKeepsEntries | Assets/Script/Quadtree/QuadtreeNode/QuadtreeNode.cs:309-335 | ReOrganize never changes any subtree's entries, so TotalElements reports the same count before and after |
| Reorganizing.ReorgTidy | Assets/Script/Quadtree/QuadtreeNode/QuadtreeNode.cs:406-457 | afterwards no node under the start node has four empty leaf children |
| Reorganizing.TidyFixed | Assets/Script/Quadtree/QuadtreeNode/QuadtreeNode.cs:406-457 | on a tidy subtree ReOrganize changes nothing |
| Reorganizing.ReorgIdempotent | Assets/Script/Quadtree/QuadtreeNode/QuadtreeNode.cs:406-457 | a second ReOrganize changes nothing |
| QuadtreeNodes.ReorgBalanced | Assets/Script/Quadtree/QuadtreeNode/QuadtreeNode.cs:406-457 | ReOrganize keeps the storage discipline |
| QuadtreeNodes.ReorgKeepsAll | Assets/Script/Quadtree/QuadtreeNode/QuadtreeNode.cs:406-457 | ReOrganize keeps every entry of the tree and every flag and queue |
| QuadtreeNodes.ReorgStep | Assets/Script/Quadtree/QuadtreeNode/QuadtreeNode.cs:505-510 | ReOrganize and clearing the flag keep the tree well formed, disciplined and holding the same agents, keep the queue, and leave the subtree tidy |
| QuadtreeNodes.Quadtree.AddNextFrame | Assets/Script/Quadtree/QuadtreeNode/QuadtreeNode.cs:518-521 | only appends the agent to the node's queue; the intermediate tree (lines 429-432 of its `QuadtreeNode.cs`) does the same |
| QuadtreeNodes.Quadtree.AddLogged | Assets/Script/Quadtree/QuadtreeNode/QuadtreeNode.cs:488-490 | one pass of the queue loop: the i-th queued reference is Added from the node, and its record says it was placed where the routing of its center and shape on the arena of that moment says; the earlier records are kept; an Add that runs out of stack is recorded as one whose routing sent a non-null agent into a full leaf, started from where the earlier records ended |
| QuadtreeNodes.Quadtree.AddQueued | Assets/Script/Quadtree/QuadtreeNode/QuadtreeNode.cs:485-491 | unless the fuel runs out, there is one record per queued reference, in queue order: each starts from the arena the previous one left, a null reference changes nothing, and every other agent is placed where the routing of its own center and shape says; the tree ends as the last record left it; nothing beyond the queued agents is added and the discipline holds; when the loop stops for want of stack, the records before the last are those in-order Adds and the last is an Add that ran out of stack on a full leaf, leaving the tree as it is |
| QuadtreeNodes.Quadtree.DrainQueue | Assets/Script/Quadtree/QuadtreeNode/QuadtreeNode.cs:485-499 | the same record of in-order Adds, then the queue emptied: the tree is the arena the Adds left with the queue cleared; when an Add runs out of stack, the same stopped log as AddQueued |
| QuadtreeNodes.Quadtree.OrganizeIfFlagged | Assets/Script/Quadtree/QuadtreeNode/QuadtreeNode.cs:504-510 | with the flag set, the tree is the reorganized one with the flag cleared and left tidy; with it clear, nothing changes; the entries stay the same |
| QuadtreeNodes.Quadtree.UpdateQuadtree | Assets/Script/Quadtree/QuadtreeNode/QuadtreeNode.cs:482-512 | unless the fuel runs out, every queued agent is Added in queue order where its routing says, as the record of in-order Adds states; the queue ends empty; the tree is the arena those Adds left with the queue cleared, reorganized when the flag was set; the flag ends clear and a set flag leaves the subtree tidy; it reports running out of stack only with a log whose last Add routed a non-null agent into a full leaf, all earlier ones being the in-order Adds; the intermediate tree (`Assets/Script/Quadtree/QuadtreeNode.cs`, lines 400-423) does the same |
| QuadtreeNodes.ExhaustedOnFullLeaf | Assets/Script/Quadtree/QuadtreeNode/QuadtreeNode.cs:590-614 | a queued Add can run out of stack only for a non-null agent that its routing sends into a leaf already holding capacity elements, whose elements are then handed down again |
| QuadtreeNodes.AddedAt | Assets/Script/Quadtree/QuadtreeNode/QuadtreeNode.cs:485-491 | any record of a complete queue log is the Add of the queued reference at the same index, started from the arena the previous Add left (the starting tree for the first), and the last one ends with the final arena |
| QuadtreeNodes.SplitWellFormed | Assets/Script/Quadtree/QuadtreeNode/QuadtreeNode.cs:266-304 | splitting keeps the tree well formed and rooted and stores nothing new |
| QuadtreeNodes.SplitEntries | Assets/Script/Quadtree/QuadtreeNode/QuadtreeNode.cs:266-304 | splitting stores nothing and loses nothing |
| QuadtreeNodes.SplitBalanced | Assets/Script/Quadtree/QuadtreeNode/QuadtreeNode.cs:596-598 | an overflowing leaf, once split, is an internal node still to hand its elements down, above four disciplined leaves |
| RangeQueries.FindNodeFromRoot | Assets/Script/Quadtree/QuadtreeNode/QuadtreeNode.cs:732-742 | FindNode from the root of the tree; the intermediate tree (`Assets/Script/Quadtree/QuadtreeNode.cs`, lines 724-734) does the same |
| RangeQueries.FindFromAnyNode | Assets/Script/Quadtree/QuadtreeNode/QuadtreeNode.cs:732-742 | an agent stored where Add's routing from the root put it is found from any node |
| RangeQueries.TouchingKeeps | Assets/Script/Quadtree/QuadtreeNode/QuadtreeNode.cs:976-986 | the query filter keeps each touching entry as often as it is stored and drops the others |
| RangeQueries.QueryDown | Assets/Script/Quadtree/QuadtreeNode/QuadtreeNode.cs:954-988 | the downward query is empty when the query misses the boundary, and returns only agents touching the query shape |
| RangeQueries.QueryDownEntries | Assets/Script/Quadtree/QuadtreeNode/QuadtreeNode.cs:954-988 | the downward query returns entries of the subtree, with no more copies than are stored |
| RangeQueries.QueryDownComplete | Assets/Script/Quadtree/QuadtreeNode/QuadtreeNode.cs:954-988 | every agent touching the query and held by a node the search reaches is returned |
| RangeQueries.QueryDownSound | Assets/Script/Quadtree/QuadtreeNode/QuadtreeNode.cs:954-988 | every returned agent is held by a node the search reaches |
| RangeQueries.Climb | Assets/Script/Quadtree/QuadtreeNode/QuadtreeNode.cs:918-946 | the upward search ends at a node on the parent chain, strictly above a node with a parent |
| RangeQueries.ClimbToRoot | Assets/Script/Quadtree/QuadtreeNode/QuadtreeNode.cs:918-946 | with no Fit on the chain the upward search reaches the root |
| RangeQueries.ClimbToFit | Assets/Script/Quadtree/QuadtreeNode/QuadtreeNode.cs:918-946 | with a Fit on the chain, the upward search stops at the parent of a node the shape Fits |
| RangeQueries.QueryRange | Assets/Script/Quadtree/QuadtreeNode/QuadtreeNode.cs:903-989 | null exactly for a null query; otherwise only agents touching the query shape |
| RangeQueries.QueryRangeFromRoot | Assets/Script/Quadtree/QuadtreeNode/QuadtreeNode.cs:995-1002 | the downward query from the root; null for a null query |
| RangeQueries.FinishKeeps | Assets/Script/Quadtree/QuadtreeNode/QuadtreeNode.cs:845-869 | the tail of FindElements keeps every agent passing compare, except one copy of the searched agent without includeSelf |
| RangeQueries.FinishDropsSelf | Assets/Script/Quadtree/QuadtreeNode/QuadtreeNode.cs:845-847 | without includeSelf a searched agent held once is removed |
| RangeQueries.FindDownAsWritten | Assets/Script/Quadtree/QuadtreeNode/QuadtreeNode.cs:814-828 | as written: empty when the shape misses the node, and a null dereference on a leaf it touches |
| RangeQueries.FindElementsAsWritten | Assets/Script/Quadtree/QuadtreeNode/QuadtreeNode.cs:763-873 | as written: null exactly for a null agent |
| RangeQueries.FindElementsFromRootAsWritten | Assets/Script/Quadtree/QuadtreeNode/QuadtreeNode.cs:881-888 | as written: null for a null agent |
| RangeQueries.FindDownAgrees | Assets/Script/Quadtree/QuadtreeNode/QuadtreeNode.cs:763-873 | the as-written search either faults or returns what the guarded search returns |
| RangeQueries.FindDownFaults | Assets/Script/Quadtree/QuadtreeNode/QuadtreeNode.cs:823 | with a classifier that sees a shape touching a rectangle touch one of its quadrants, the as-written search faults exactly when the shape touches the start node |
| RangeQueries.FromRootIgnoresIncludeSelf | Assets/Script/Quadtree/QuadtreeNode/QuadtreeNode.cs:881-888 | as written, includeSelf lands in the upward-search position, and the answer from the root is the same either way |
| RangeQueries.FromRootNeverSelf | Assets/Script/Quadtree/QuadtreeNode/QuadtreeNode.cs:881-888 | as written, an agent held once never finds itself from the root, even when includeSelf is asked for |
| RangeQueries.FindDown | Assets/Script/Quadtree/QuadtreeNode/QuadtreeNode.cs:814-871 | corrected downward search: empty when the shape misses the node; only agents passing compare |
| RangeQueries.FindElements | Assets/Script/Quadtree/QuadtreeNode/QuadtreeNode.cs:763-873 | corrected: null exactly for a null agent; only agents passing compare |
| RangeQueries.FindElementsFromRoot | Assets/Script/Quadtree/QuadtreeNode/QuadtreeNode.cs:881-888 | corrected: the downward search from the root with includeSelf passed through |
| RangeQueries.FindDownEntries | Assets/Script/Quadtree/QuadtreeNode/QuadtreeNode.cs:814-871 | the search returns entries of the subtree, with no more copies than are stored |
| RangeQueries.FindDownComplete | Assets/Script/Quadtree/QuadtreeNode/QuadtreeNode.cs:814-871 | every agent passing compare held by a node the search reaches is returned, except the searched agent without includeSelf |
| RangeQueries.FindDownSound | Assets/Script/Quadtree/QuadtreeNode/QuadtreeNode.cs:814-871 | every returned agent is held by a node the search reaches |
| RangeQueries.FindDownDropsSelf | Assets/Script/Quadtree/QuadtreeNode/QuadtreeNode.cs:845-847 | without includeSelf, an agent held once in the subtree does not find itself |
| RangeQueries.FromRootFindsSelf | Assets/Script/Quadtree/QuadtreeNode/QuadtreeNode.cs:881-888 | corrected: with includeSelf, an agent held by a node the search reaches finds itself |
| IntermediateQueries.RemoveFailingCount | Assets/Script/Quadtree/QuadtreeNode.cs:793-806 | the compare filter takes out one copy per own entry that fails compare, and keeps the agents that pass |
| IntermediateQueries.TrimKeeps | Assets/Script/Quadtree/QuadtreeNode.cs:786-809 | agents passing compare survive the tail, except one copy of the searched agent without includeSelf |
| IntermediateQueries.TrimDropsFailing | Assets/Script/Quadtree/QuadtreeNode.cs:793-806 | an agent failing compare is gone when the node's own lists hold every copy of it |
| IntermediateQueries.TrimDropsSelf | Assets/Script/Quadtree/QuadtreeNode.cs:786-809 | without includeSelf, a searched agent held once is gone |
| IntermediateQueries.FindElements | Assets/Script/Quadtree/QuadtreeNode.cs:748-810 | empty when the shape misses the node |
| IntermediateQueries.FindElementsFromRoot | Assets/Script/Quadtree/QuadtreeNode.cs:818-825 | the search from the root, without compare |
| IntermediateQueries.FindElementsEntries | Assets/Script/Quadtree/QuadtreeNode.cs:748-810 | the search returns entries of the subtree, with no more copies than are stored |
| IntermediateQueries.FindElementsComplete | Assets/Script/Quadtree/QuadtreeNode.cs:748-810 | every agent passing compare held by a node the Fit-break search reaches is returned, except the searched agent without includeSelf |
| IntermediateQueries.FindElementsSound | Assets/Script/Quadtree/QuadtreeNode.cs:748-810 | every returned agent is held by a node the search reaches |
| IntermediateQueries.FitStopsSearch | Assets/Script/Quadtree/QuadtreeNode.cs:765-782 | the children after the first one the shape Fits are never searched |
| IntermediateQueries.FindElementsDropsFailing | Assets/Script/Quadtree/QuadtreeNode.cs:786-809 | with compare, a failing agent held once in the subtree is not returned |
| IntermediateQueries.FindElementsDropsSelf | Assets/Script/Quadtree/QuadtreeNode.cs:786-809 | without includeSelf, an agent held once in the subtree does not find itself |
| IntermediateQueries.QueryElementsAsWritten | Assets/Script/Quadtree/QuadtreeNode.cs:832-883 | as written: a result only for a non-null query, holding only agents the query touches; the original QueryElements (`Assets/Quadtree/Quadtree.cs`, lines 778-829) is the same code |
| IntermediateQueries.QueryElementsNullWhenSplit | Assets/Script/Quadtree/QuadtreeNode.cs:847-848 | a split node keeps no elements, so the as-written query answers null at every internal node, whatever its children hold |
| IntermediateQueries.QueryElements | Assets/Script/Quadtree/QuadtreeNode.cs:832-883 | corrected: null exactly for a null query or one missing the boundary; only agents the query touches |
| IntermediateQueries.QueryNodesFromRoot | Assets/Script/Quadtree/QuadtreeNode.cs:889-896 | the query from the root; the original tree (`Assets/Quadtree/Quadtree.cs`, lines 835-842) does the same |
| IntermediateQueries.QueryElementsComplete | Assets/Script/Quadtree/QuadtreeNode.cs:851-882 | corrected: every agent the query touches, held by a node it reaches, is returned |
| IntermediateQueries.QueryElementsSound | Assets/Script/Quadtree/QuadtreeNode.cs:851-882 | every returned agent is held by a node the query reaches |
| OriginalTree.OriginalQuadtree.constructor | Assets/Quadtree/Quadtree.cs:453-460 | createRootQuadtree: one empty leaf with the given boundary |
| OriginalTree.OriginalQuadtree.Split | Assets/Quadtree/Quadtree.cs:608-646 | four new empty quadrant children, whether or not the node had children, storing nothing new |
| OriginalTree.OriginalQuadtree.Add | Assets/Quadtree/Quadtree.cs:540-602 | a null agent is refused; otherwise the outcome the routing says (refused, overlap list, leaf with room, or split leaf left with no elements); nothing but the agent is added |
| OriginalTree.OriginalQuadtree.AddInternal | Assets/Quadtree/Quadtree.cs:551-583 | an internal node does what the routing from it says: refused when no child holds the center or the shape misses that child, passed down on Fit, kept in its overlap list on Overlap |
| OriginalTree.OriginalQuadtree.AddToLeaf | Assets/Quadtree/Quadtree.cs:586-601 | a leaf with room appends; a full one ends internal with no elements |
| OriginalTree.OriginalQuadtree.Distribute | Assets/Quadtree/Quadtree.cs:589-599 | split, re-add each element ignoring the answer, clear: the node is internal with no elements and no agent is added |
| OriginalTree.OriginalQuadtree.ReaddAll | Assets/Quadtree/Quadtree.cs:594-595 | re-adding the elements adds nothing beyond them |
| OriginalTree.OriginalQuadtree.Readd | Assets/Quadtree/Quadtree.cs:594-595 | one re-add, answer ignored, adds at most that element |
| OriginalTree.SplitForgetsSubtree | Assets/Quadtree/Quadtree.cs:608-646 | splitting a node that had children cuts them off: its subtree then holds only its own lists |
| OriginalTree.SplitRefusesOutside | Assets/Quadtree/Quadtree.cs:586-599 | an element whose center lies outside the leaf was taken by the leaf, and is refused by the re-add after the split, so it is dropped |
| OriginalQueries.FindNodeByCenter | Assets/Quadtree/Quadtree.cs:654-685 | a node is returned only when the center lies in the start node and the node's lists hold the agent |
| OriginalQueries.FindNodeFromRoot | Assets/Quadtree/Quadtree.cs:692-702 | FindNode from the root |
| OriginalQueries.FindNodeByCenterFindsElement | Assets/Quadtree/Quadtree.cs:654-685 | an agent routed into a leaf's elements is found there |
| OriginalQueries.FindNodeByCenterMissesOverlap | Assets/Quadtree/Quadtree.cs:654-685 | an agent routed into an overlap list, and held nowhere else, is not found |
| OriginalQueries.AddRange | Assets/Quadtree/Quadtree.cs:730-742 | adding a child's null answer faults, and adding a list appends it |
| OriginalQueries.FindElementsAsWritten | Assets/Quadtree/Quadtree.cs:710-756 | as written: a null agent faults, a center outside the node gives null |
| OriginalQueries.FindElementsFaults | Assets/Quadtree/Quadtree.cs:734-742 | when the agent Overlaps the child containing its center and touches a child not containing it, that child's null answer makes the search fault |
| OriginalQueries.FindElementsAgree | Assets/Quadtree/Quadtree.cs:710-756 | whenever the as-written search returns, it returns what the corrected search does |
| OriginalQueries.Contents | Assets/Quadtree/Quadtree.cs:734-742 | a child's null answer counts as no agents in the corrected search |
| OriginalQueries.FindElements | Assets/Quadtree/Quadtree.cs:710-756 | corrected: null exactly when the center lies outside the node |
| OriginalQueries.FindElementsFromRoot | Assets/Quadtree/Quadtree.cs:764-771 | the search from the root |
| OriginalQueries.FindElementsEntries | Assets/Quadtree/Quadtree.cs:710-756 | the search returns entries of the subtree, with no more copies than are stored |
| OriginalQueries.FindElementsDropsSelf | Assets/Quadtree/Quadtree.cs:751-753 | without includeSelf, an agent held once in the subtree is not in the answer |
| OriginalQueries.FindElementsComplete | Assets/Quadtree/Quadtree.cs:710-756 | corrected: every other agent held by a node the center-following search reaches is returned |
| OriginalQueries.FindElementsSound | Assets/Quadtree/Quadtree.cs:710-756 | every returned agent is held by a node the search reaches |
| Relocation.MoveTo | Assets/Script/Quadtree/QuadtreeAgent/QtAgent.cs:133-134 | one move: Remove from the current node, then Add from the target, as `Moved` describes; boundaries are kept and nothing but the agent is added |
| Relocation.FitAncestor | Assets/Script/Quadtree/QuadtreeAgent/QtAgent.cs:142-150 | the ancestor found is a node the shape Fits |
| Relocation.FitAncestorDeepest | Assets/Script/Quadtree/QuadtreeAgent/QtAgent.cs:142-150 | it is the deepest node on the chain the shape Fits, and none means there is no such node |
| Relocation.Parent | Assets/Script/Quadtree/QuadtreeAgent/QtAgent.cs:142 | a node has no parent exactly when it is the root of its chain |
| Relocation.OverlapTarget | Assets/Script/Quadtree/QuadtreeAgent/QtAgent.cs:142-157 | where an overlapping agent goes is a node of the tree |
| Relocation.ClimbToFit | Assets/Script/Quadtree/QuadtreeAgent/QtAgent.cs:142-150 | the parent-climbing loop ends at the first ancestor the shape Fits, or at none; the earlier agent (`Assets/Script/Quadtree/Agent/QtAgent.cs`, lines 112-120) does the same |
| Relocation.MoveUp | Assets/Script/Quadtree/QuadtreeAgent/QtAgent.cs:140-163 | Overlap: remove, then add from the first ancestor the shape Fits or from the root; None: remove, then add from the root; the earlier agent (`Assets/Script/Quadtree/Agent/QtAgent.cs`, lines 102-132) does the same |
| Relocation.MoveIntoFittingChildren | Assets/Script/Quadtree/QuadtreeAgent/QtAgent.cs:122-138 | Fit no child: nothing changes; Fit exactly one child: one move into that child |
| Relocation.UpdateAgentInQuadtree | Assets/Script/Quadtree/QuadtreeAgent/QtAgent.cs:111-170 | no move or no current node: nothing changes; otherwise the relocation by class of the current node (Fit, Overlap, None) that `Relocated` spells out; the last position always becomes the new one |
| Relocation.SomeChildFitsAtCenter | Assets/Script/Quadtree/Agent/QtAgent.cs:85-98 | true exactly when some child contains the center and the shape Fits it |
| Relocation.UpdateAgentNode | Assets/Script/Quadtree/Agent/QtAgent.cs:71-145 | as UpdateAgentInQuadtree, except that on Fit the agent is removed and added again from its current node, once, when a child containing its center is Fit |
| Relocation.Update | Assets/Script/Quadtree/QuadtreeAgent/QtAgent.cs:96-105 | the new and last position end as the given position, and the agent is relocated as UpdateAgentInQuadtree says |
| Relocation.UpdateIntermediate | Assets/Script/Quadtree/Agent/QtAgent.cs:65-69 | the same for the intermediate agent with UpdateAgentNode |

## Left out

- Unity plumbing is left out: the lifecycle methods, transforms, rigid bodies, game objects, drawing, gizmos, `DebugDraw`, `LevelDesc` and debug logging. The debug colour written in `rootQuadtree` is left out too. Positions are parameters (`Agents.QtAgent.Start`, `Agents.QtAgent.RefreshPosition`).
- Finalizers are left out. They only release lists.
- The geometry library that classifies shapes against rectangles and shapes is not part of this model. It is the parameter `Geometry.Convex`. Circle and rectangle distance arithmetic is not modelled.
- The latest and intermediate `SetBoundary` guard is left out. It compares with `ConvexRect.zero`, and that type's equality lives in the geometry library. The constructors take the boundary as given.
- The query objects (`QtQuery` and its rectangle and circle forms) are left out:
  - `QueryRange` takes the query shape.
  - `QueryElements` takes an `ElementQuery` made of the two boolean tests it calls.
- The earlier base agent's `IntersectWithShape` dispatch (`Assets/Script/Quadtree/Agent/QtAgent.cs`, lines 12-39) is left out. Nothing in the tree calls it, and the rectangle and circle tests it dispatches to belong to concrete agents and the geometry library.
- The point agent's `InQueryRange` is left out. It delegates to a method of the query object.
- The point agent's `Point2D` accessor is left out. Its position is the point that `PointAgents.IntersectWithBoundary` takes.
- The virtual hooks `BeforeAgentUpdate`, `AgentAwake`, `AgentStart` and `AgentUpdate` of the current agent are left out. They are empty extension points for subclasses.
- `BeforeAddToQuadtreeNode` is left out. The core agents' hook is empty. The circle agents use it to refresh their circle's center and radius from the transform. The intermediate Add calls it before classifying (`Assets/Script/Quadtree/QuadtreeNode.cs`, line 449). The latest circle agent's override takes a node, but the latest Add (line 538 of `Assets/Script/Quadtree/QuadtreeNode/QuadtreeNode.cs`) calls the parameterless hook. The model takes an agent's `center` and `shape` as already current when Add runs, which is what that refresh provides.
- The `AllNodes` and `IsLeaf` accessors are `QuadtreeArena.Child` and `QuadtreeArena.IsLeaf`.
- The static `elementCapacity` is the tree's `capacity` field.
- Float rounding is not modelled: coordinates are `real`.
- A stack overflow from an Add that never stops splitting is the `StackExhausted` answer of an Add that ran out of fuel. The fuel bound says nothing about how deep the real stack can go.
- `Outcome.NullReference` stands for both exceptions the source can raise in a query: the null dereference and `AddRange(null)`. Which exception it is does not matter here.
- QuadtreeNodes.Quadtree.Split: models the "children already exist" guard as present. The current generation compiles that guard only in DEBUG builds. Add only ever splits a leaf, so the guard never changes what Add does.
- QuadtreeNodes.Quadtree.Add: for a leaf that overflows, it states where the leaf ends up and that nothing beyond the agent is added, not where each re-added element lands. The same holds for `OriginalTree.OriginalQuadtree.Add`, `QuadtreeNodes.Quadtree.Distribute` and `OriginalTree.OriginalQuadtree.Distribute`.
- QuadtreeNodes.Quadtree.AddToLeaf: when the leaf is full, it states that the leaf ends internal with no elements and that nothing beyond the agent is added. It does not state where the agent and the re-added elements land, for the reason given for Add.
- QuadtreeNodes.Quadtree.ReaddAll: states only that the re-adds add nothing beyond the re-added elements and keep the storage discipline. It does not state where each element lands, for the reason given for Add.
- QuadtreeNodes.Quadtree.Readd: states only that one re-add, with the root as fallback, adds at most that element. It does not state that the first Add places it as its routing says.
- OriginalTree.OriginalQuadtree.AddToLeaf: the same gap as `QuadtreeNodes.Quadtree.AddToLeaf` for the original tree's overflowing leaf (`Assets/Quadtree/Quadtree.cs`, lines 586-601).
- OriginalTree.OriginalQuadtree.ReaddAll: the same gap as `QuadtreeNodes.Quadtree.ReaddAll`.
- OriginalTree.OriginalQuadtree.Readd: the same gap as `QuadtreeNodes.Quadtree.Readd`; the original re-add ignores its answer.
- IntermediateQueries.FindElements: takes a non-null agent. The intermediate search has no null check, so a null agent faults at its first use (`Assets/Script/Quadtree/QuadtreeNode.cs`, line 758). That fault path is not modelled. The one caller in the repository (`Assets/Script/QuadtreeController.cs`, line 163) tests the agent against null first.
- Relocation.UpdateAgentInQuadtree: when the shape Fits two or more children of the current node, only the tree's validity is stated. Add's contract does not say where a split puts the agent, so the later moves of the loop are not described. The same holds for `Relocation.MoveIntoFittingChildren`.
- Relocation.MoveIntoFittingChildren: has a defensive stop when the agent's current node is null or not a node of the tree after an earlier move of the same loop. That can only happen after the shape Fits two children, which is the case above.
- Relocation.UpdateAgentInQuadtree and Relocation.UpdateAgentNode require the agent's current node, when it has one, to be a node of the given tree.

## Findings

| source | as written | input that shows it | evidently intended | confidence | as-written member | corrected member |
|---|---|---|---|---|---|---|
| Assets/Script/Quadtree/QuadtreeNode/QuadtreeNode.cs:823 | the downward FindElements enumerates `nodes` without checking for null, so every touched leaf throws | a fresh tree with one agent in its root leaf, and `FindElements(agent)` on that leaf | a leaf contributes only its own lists, as QueryRange does (line 963 checks for children) | high, not executed | RangeQueries.FindDownFaults | RangeQueries.FindDownComplete |
| Assets/Script/Quadtree/QuadtreeNode/QuadtreeNode.cs:881-888 | `FindElementsFromRoot` passes `includeSelf` as the second argument of `FindElements`, which is `upwardSearch` | `FindElementsFromRoot(agent, true)` on a tree that holds the agent once: the agent is never in the answer | `includeSelf` reaches the search as `includeSelf` | high, not executed | RangeQueries.FromRootNeverSelf | RangeQueries.FromRootFindsSelf |
| Assets/Script/Quadtree/QuadtreeNode.cs:847-848 | QueryElements returns null when the node's own `elements` list is empty, before it looks at the overlap list or the children | a root that has split (its elements are then empty), with agents in its children, and a query touching them: the answer is null | the test on the own elements is left out, so the overlap entries and children are searched | high, not executed | IntermediateQueries.QueryElementsNullWhenSplit | IntermediateQueries.QueryElementsComplete |
| Assets/Quadtree/Quadtree.cs:654-685 | FindNode follows the child containing the center without asking whether the shape Fits it, and returns that child's answer even when it is null | an agent whose shape Overlaps the child containing its center, stored in the parent's overlap list: FindNode returns null | descend only into a child the shape Fits, as the later generations do | medium, not executed | OriginalQueries.FindNodeByCenterMissesOverlap | Routing.FindAfterRoute |
| Assets/Quadtree/Quadtree.cs:734-742 | on Overlap, FindElements adds every touched child's answer with `AddRange`, and a child not containing the center answers null | an agent overlapping two children, with its center in one of them: `AddRange(null)` throws | count a null answer as no agents | high, not executed | OriginalQueries.FindElementsFaults | OriginalQueries.FindElementsComplete |

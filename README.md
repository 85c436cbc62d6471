# Fortune's-sweep Voronoi bookkeeping, modelled in Dafny

This project models the exact, non-geometric core of the Voronoi module in
`index.js`, a port of d3's Fortune sweep, and proves properties of it.

- **The red-black tree with a threaded in-order list.** The beach line and the
  circle-event queue are both built on it. Nodes live in an arena: per-node
  sequences `U`/`L`/`R`/`P`/`N` (parent, children, in-order predecessor and
  successor; `Nil` is -1) and `C` (true for red). The ghost bookkeeping records
  the in-order sequence `Contents`, each node's position in it, the span of
  positions each subtree covers, and black heights. `RedBlackSpec.Valid`
  covers all the invariants: the tree read in order is `Contents`, `P`/`N`
  thread exactly `Contents`, `U` agrees with `L`/`R`, the root is black, no red
  node has a red child, and every path has the same black height.
  - Insert, remove, the rotations and `RedBlackFirst` are methods of
    `RedBlackTree.Tree`. The helpers that rewire nodes (the rotations, `Link`,
    `Unlink`, `LiftSibling*`, `TurnNephew*`, `Straighten*`, `NewNode` and
    `Clear`) are each proved equal to a function of the old state
    (`View() == RotatedLeft(old(View()), p)`, `View() == Unlinked(...)`). The
    steps of the two fix-up loops are proved against the loop invariants
    `FixingUp` and `Loose`.
  - Lemmas over the snapshot type `Snap` prove that those functions keep the
    invariants.
  - The remove fix-up is proved case by case (cases 1 to 4 on each side),
    against the loop invariant `RedBlackLoose.Loose`.
- **The circle-event queue** (`VoronoiCircles.CircleQueue`). This is a tree
  whose in-order sequence is the queue of pending circles, plus `first`, the
  cached head. It models the queue part of `attachCircle` (the walk down the
  tree and the insertion) and of `detachCircle`.
- **Edges and half-edges** (`VoronoiEdges`, `VoronoiDiagram`): `setEdgeEnd`,
  `createEdge`, `createBorderEdge`, and `HalfEdge.start`/`end`.
- **Cells** (`VoronoiCells`): `Cell.prepare` drops half-edges whose edge lacks
  an end, then sorts the rest by descending angle.
- **The sweep loop** (`VoronoiSweep`): `lexicographic`, the sort of the
  sites, and the event selection of `computeVoronoi`. The events it produces,
  and the lemmas about them, are stated over a sequence of circles in queue
  order that only loses its head as circles fire.

Geometry is abstract. Site and circle coordinates and half-edge angles are
`real` values given by the caller. Nothing here computes a circumcircle, a
breakpoint or an `atan2`.

## Model

| member | source | states |
|---|---|---|
| RedBlackSpec.InOrderSpans | index.js:669-692 | the in-order walk through L/R of any subtree is exactly the slice of `Contents` its span covers |
| RedBlackSpec.InOrderIsContents | index.js:669-692 | the whole tree read in order through L and R is `Contents`, the same sequence the P/N links thread |
| RedBlackSpec.GrownValid | index.js:655-662 | adding a fresh detached node with every link null (`RedBlackNode` on a new object) keeps a valid tree valid |
| RedBlackSpec.ClearedValid | index.js:655-662 | resetting a node outside the tree to null links and black (`RedBlackNode` on a removed circle) keeps the tree valid |
| RedBlackTree.Tree.constructor | index.js:651-653 | a new tree is empty (null root) and valid |
| RedBlackTree.Tree.NewNode | index.js:655-662 | a new node has all links null, is black and is in no tree; the rest of the arena is unchanged |
| RedBlackTree.Tree.Clear | index.js:655-662 | the node's U/L/R/P/N become null and its colour black; nothing else changes |
| RedBlackTree.Tree.First | index.js:883-886 | returns the node with no left child whose position is the first of the subtree's span; from the root it is `Contents[0]`, the node with null P |
| RedBlackRotation.RotateLeftStructured | index.js:845-862 | a left rotation keeps the tree structured: same in-order sequence, same P/N links, U consistent with L/R; every node outside the four it touches keeps its links and invariants |
| RedBlackRotation.RotateRightStructured | index.js:864-881 | the mirror image for a right rotation |
| RedBlackTree.Tree.RotateLeft | index.js:845-862 | the link writes of `RedBlackRotateLeft`, in source order, yield exactly `RotatedLeft` of the old state |
| RedBlackTree.Tree.RotateRight | index.js:864-881 | the link writes of `RedBlackRotateRight` yield exactly `RotatedRight` of the old state |
| RedBlackTree.Tree.Place | index.js:669-692 | the node is hung as the right child of `after`, or as the left child of the first node of `after`'s right subtree (of the tree when `after` is null), or as the root; its position is right after `after`, and its neighbours-to-be are `after` and `after`'s successor |
| RedBlackTree.Tree.Link | index.js:666-695 | threading the node into P/N and hanging it as a red leaf gives `Attached` of the old state, at position `Pos[after] + 1` (0 when `after` is null) |
| RedBlackAttach.AttachedStructured | index.js:666-695 | attaching keeps the tree structured with the node inserted into `Contents`; every node but the parent keeps its colouring conditions |
| RedBlackAttach.InsertedNeighbours | index.js:669-692 | the inserted node's P is `after` and its N is `after`'s old successor, or the old first node when `after` is null |
| RedBlackInsertFix.AttachedFixingUp | index.js:693-697 | the fresh red leaf satisfies the fix-up invariant: the only possible red-red edge is the one above it, and black heights are equal |
| RedBlackInsertFix.Case1 | index.js:702-705 | with a red uncle, recolouring parent, uncle and grandparent keeps the invariant two levels up, at a strictly larger subtree |
| RedBlackInsertLeft.InnerCase | index.js:707-711 | when the node is the inner grandchild, a left rotation at the parent yields the outer case one level down with the invariant kept |
| RedBlackInsertLeft.OuterCase | index.js:712-714 | repainting and a right rotation at the grandparent leave the node red under a black parent with the invariant kept |
| RedBlackInsertRight.InnerCase | index.js:723-727 | the mirror image of the inner case |
| RedBlackInsertRight.OuterCase | index.js:728-730 | the mirror image of the outer case |
| RedBlackInsertFix.Blackened | index.js:735 | once the node has no red parent, painting the root black leaves a valid red-black tree |
| RedBlackTree.Tree.Recolour | index.js:702-705 | the recolouring step keeps the fix-up invariant at the grandparent, with the in-order sequence unchanged |
| RedBlackTree.Tree.RotateFixLeft | index.js:706-715 | the rotation cases on the left end with the node red under a black parent, invariant kept, sequence unchanged |
| RedBlackTree.Tree.RotateFixRight | index.js:722-731 | the mirror image |
| RedBlackTree.Tree.FixUp | index.js:699-733 | one pass of the fix-up loop below a red parent keeps the fix-up invariant and the in-order sequence, and any red-red edge left over sits on a strictly larger subtree |
| RedBlackTree.Tree.InsertFixup | index.js:697-735 | the fix-up loop terminates with a valid red-black tree and the in-order sequence unchanged |
| RedBlackTree.Tree.Insert | index.js:666-736 | the tree stays valid; the new in-order sequence is the old one with `node` inserted right after `after` (first when `after` is null); `node.P == after` and `node.N` is `after`'s old successor (the old first node) |
| RedBlackTree.Tree.Unthread | index.js:739-741 | the node's neighbours in P/N become adjacent and its own P and N become null; nothing else changes |
| RedBlackTree.Tree.Replace | index.js:754-759 | `next` takes the node's place as the left or right child of its parent, or as the root |
| RedBlackTree.Tree.SpliceOut | index.js:778-783 | with a null child, the other child takes the node's place (`Spliced`); it returns that child, its new parent and the node's colour |
| RedBlackTree.Tree.Succeed | index.js:761-777 | with two children, the successor takes the node's place, colour and children, and its right child moves up into its old place (`Relinked`) |
| RedBlackUnlink.SucceedableOf | index.js:752 | a node with two children has an in-order successor, the leftmost node of its right subtree |
| RedBlackUnlink.SplicedStructured | index.js:750-783 | splicing out a node with at most one child keeps the tree structured over `Contents` without the node |
| RedBlackUnlink.SucceededStructured | index.js:752-783 | succeeding a node with two children keeps the tree structured over `Contents` without the node |
| RedBlackTree.Tree.Unlink | index.js:739-783 | the unthreading and the tree surgery together give `Unlinked` of the old state; it returns the place that lost a node and the colour that left it |
| RedBlackUnlinkColour.UnlinkedLoose | index.js:739-783 | after unlinking, the in-order sequence lacks just the node, the node has null P/N, and the fix-up invariant holds at the hole, one black short exactly when a black node left it |
| RedBlackUnlinkColour.UnlinkedNeighbours | index.js:739-741 | after unlinking, the node's old predecessor and successor are adjacent in P/N |
| RedBlackLoose.LooseSettled | index.js:784 | when a red node left the hole, the tree is already valid |
| RedBlackLoose.LoosePainted | index.js:785-788 | painting the root, or a red node one black short, black restores validity |
| RedBlackLoose.LooseRank | index.js:790-838 | the subtree of any non-root node spans fewer positions than the whole tree: the measure the fix-up loop climbs |
| RedBlackLoose.ValidLoose | index.js:810-811 | a valid tree satisfies the fix-up invariant at its root with nothing short |
| RedBlackRemoveLeft.RedSiblingCase | index.js:794-799 | case 1: a red sibling turns black and is rotated above the red parent; the node is still short, now with a black sibling |
| RedBlackRemoveLeft.PushUpCase | index.js:835-837 | case 2: with a black sibling and no red nephew, the sibling turns red and the shortage moves to the parent, a strictly larger subtree |
| RedBlackRemoveLeft.InnerRedCase | index.js:801-806 | case 3: a red inner nephew is rotated to the outside; the node is still short and its sibling is black with a red outer child |
| RedBlackRemoveLeft.OuterRedCase | index.js:807-811 | case 4: the sibling takes the parent's colour, parent and outer nephew turn black, a left rotation at the parent makes up the black node, and the tree is valid |
| RedBlackRemoveRight.RedSiblingCase | index.js:815-820 | the mirror image of case 1 |
| RedBlackRemoveRight.PushUpCase | index.js:835-837 | the mirror image of case 2 |
| RedBlackRemoveRight.InnerRedCase | index.js:822-827 | the mirror image of case 3 |
| RedBlackRemoveRight.OuterRedCase | index.js:828-832 | the mirror image of case 4 |
| RedBlackTree.Tree.LiftSiblingLeft | index.js:795-797 | the writes of case 1 on the left yield `SiblingLifted` of the old state |
| RedBlackTree.Tree.TurnNephewLeft | index.js:802-804 | the writes of case 3 on the left yield `NephewTurned` of the old state |
| RedBlackTree.Tree.StraightenLeft | index.js:807-809 | the writes of case 4 on the left yield `Straightened` of the old state |
| RedBlackTree.Tree.BlackSiblingLeft | index.js:793-799 | after case 1, if it applies, the sibling is black and the node is still short |
| RedBlackTree.Tree.RestoreLeft | index.js:800-811 | with a red nephew, cases 3 and 4 leave a valid tree |
| RedBlackTree.Tree.FixLeft | index.js:792-812 | one step on the left either leaves a valid tree or returns a black sibling with black children |
| RedBlackTree.Tree.LiftSiblingRight | index.js:816-818 | the mirror image of `LiftSiblingLeft` |
| RedBlackTree.Tree.TurnNephewRight | index.js:823-825 | the mirror image of `TurnNephewLeft` |
| RedBlackTree.Tree.StraightenRight | index.js:828-830 | the mirror image of `StraightenLeft` |
| RedBlackTree.Tree.BlackSiblingRight | index.js:814-820 | the mirror image of `BlackSiblingLeft` |
| RedBlackTree.Tree.RestoreRight | index.js:821-832 | the mirror image of `RestoreLeft` |
| RedBlackTree.Tree.FixRight | index.js:813-833 | the mirror image of `FixLeft` |
| RedBlackTree.Tree.PushUp | index.js:835-837 | case 2 moves the fix-up invariant up to the parent, at a strictly larger subtree |
| RedBlackTree.Tree.FixStep | index.js:791-837 | one pass of the fix-up loop either leaves a valid tree or moves the shortage to a strictly larger subtree |
| RedBlackTree.Tree.RemoveFixup | index.js:790-840 | the fix-up loop terminates with a valid tree; the in-order sequence and the P/N links are unchanged |
| RedBlackTree.Tree.Remove | index.js:738-841 | the tree stays valid; the new in-order sequence is the old one without `node`; `node`'s P and N are null; its old predecessor and successor are adjacent |
| VoronoiCircles.CircleQueue.constructor | index.js:936 | an empty queue is valid, with no first circle |
| VoronoiCircles.CircleQueue.FirstCircle | index.js:939 | `firstCircle` is the head of the queue, and no queued circle comes strictly before it |
| VoronoiCircles.CircleQueue.NewCircle | index.js:354 | a new circle node is detached and carries the circle; the queue is unchanged |
| VoronoiCircles.CircleQueue.Before | index.js:363-380 | the walk finds the insertion point: every queued circle before it is strictly earlier in (y, x) than the new circle, and no circle from it on is |
| VoronoiCircles.InsertedInOrder | index.js:363-382 | inserting at that point keeps the queue in (y, x) order |
| VoronoiCircles.CircleQueue.Attach | index.js:363-383 | the circle is queued after every strictly earlier circle and before every other one; the queue stays ordered; `first` becomes the circle exactly when nothing precedes it |
| VoronoiCircles.RemovedInOrder | index.js:386-394 | removing any circle keeps the queue in (y, x) order |
| VoronoiCircles.RemovedHead | index.js:389 | after removal, `first` is the old successor when the circle had no predecessor, else unchanged: the head of the remaining queue either way |
| VoronoiCircles.CircleQueue.Detach | index.js:386-394 | the circle leaves the queue at its position with null links; `first` stays the head of the queue; detaching the first circle leaves the rest of the queue |
| VoronoiEdges.Edge.constructor | index.js:403-407 | a new edge has its two sites and no ends |
| VoronoiEdges.WithEnd | index.js:427-437 | recording an end sets exactly one of `a`/`b` to the vertex and keeps the other; an edge that already had an end keeps its sites |
| VoronoiEdges.SetEdgeEnd | index.js:427-437 | the edge's new fields are `WithEnd` of its old fields: `a` plus re-oriented sites when no end is set, `b` when `l` is `rSite`, else `a` |
| VoronoiEdges.WithEndStartsHalfEdge | index.js:427-437 | recording an end makes it the start of `lSite`'s half-edge and leaves that half-edge's end alone |
| VoronoiEdges.StartFrom | index.js:627-629 | a half-edge starts at one of its edge's ends |
| VoronoiEdges.EndFrom | index.js:630-632 | a half-edge ends at one of its edge's ends |
| VoronoiEdges.HalfEdgesOpposite | index.js:626-633 | a half-edge's start and end are the edge's two ends, and the half-edges of the two sites run in opposite directions |
| VoronoiDiagram.Created | index.js:409-413 | a created edge lies between its two sites |
| VoronoiDiagram.CreatedRunsFromVaToVb | index.js:409-413 | whichever ends are known, `lSite`'s half-edge runs from `va` to `vb` and `rSite`'s from `vb` to `va` |
| VoronoiDiagram.Diagram.constructor | index.js:933-934 | the sweep starts with no edges, over a cell array the caller supplies |
| VoronoiDiagram.Diagram.CreateEdge | index.js:409-417 | the new edge is appended, has the fields `Created` gives, and each site's cell gains one half-edge onto it |
| VoronoiDiagram.Diagram.CreateBorderEdge | index.js:419-425 | the border edge is appended with no right site, `a = va` and `b = vb`, so its site's half-edge runs from `va` to `vb` |
| VoronoiCells.Cell.constructor | index.js:237-240 | a new cell has its site and no half-edges |
| VoronoiCells.KeptContents | index.js:247-250 | the kept half-edges are a sub-multiset of the input containing each flagged half-edge and nothing unflagged |
| VoronoiCells.FinishedOnesAre | index.js:247-250 | the half-edges kept are a sub-multiset of the cell's, hold every one whose edge has both ends, and only such ones |
| VoronoiCells.DropUnfinished | index.js:246-250 | walking from the back and splicing out each half-edge whose edge lacks an end leaves exactly `FinishedOnes`, in the original order |
| VoronoiCells.FinishedFlags | index.js:249 | a half-edge is flagged exactly when its edge has both ends |
| VoronoiCells.MovedLeftSorted | index.js:252 | moving the next half-edge left past those of smaller angle extends the sorted prefix |
| VoronoiCells.SortDescending | index.js:252 | the result is in non-increasing angle order and a permutation of the input |
| VoronoiCells.Cell.Prepare | index.js:242-254 | the remaining half-edges are a permutation of those with finished edges, sorted by non-increasing angle, and the count returned is their number |
| VoronoiSweep.LexicographicOrder | index.js:923-925 | the comparator is positive exactly when the first site is strictly earlier in (y, x), negative exactly when the second is, zero exactly at the same point, and antisymmetric |
| VoronoiSweep.Pop | index.js:946 | popping yields the last site and the rest, and none from an empty array |
| VoronoiSweep.Step | index.js:939-950 | one pass of the loop: what it emits followed by the events from the new state are the events from the old one, it stops only when no site and no circle is left, and otherwise the sites and circles left decrease |
| VoronoiSweep.LexicographicTransitive | index.js:923-925 | the order the comparator sorts by is transitive |
| VoronoiSweep.MovedLeftForPop | index.js:928 | moving the next site left past the sites strictly before it extends the sorted prefix |
| VoronoiSweep.SortForPop | index.js:928 | the sorted array is a permutation of the sites in which no site comes strictly before a later one, so popping yields them in sweep order |
| VoronoiSweep.ReadyAtStart | index.js:928-938 | sorted sites and an ordered queue meet the loop's precondition with no last point |
| VoronoiSweep.Sweep | index.js:928-952 | the sites are sorted into a permutation in comparator order, and the loop produces exactly `Events` of the popped site, the rest and the queue; with the queue ordered, the events come in sweep order, and the sites added to the beach are at strictly increasing points that cover every site |
| VoronoiSweep.PrependedIncreasing | index.js:941-945 | a site added in front of later points, and after the last point unless it is that point, keeps the added points strictly increasing |
| VoronoiSweep.SitesAddedInOrder | index.js:941-945 | skipping a site at the last point taken makes the points of the added sites strictly increasing, hence distinct, and all after the last point |
| VoronoiSweep.SitesAddedAll | index.js:939-946 | every site still to come is added to the beach unless it lies at the last point taken |
| VoronoiSweep.EveryCircleFires | index.js:938-952 | every circle of a queue that only loses its head fires once, in queue order: the circles the events remove are the queue |
| VoronoiSweep.EventsInOrder | index.js:923-952 | with sites sorted by the comparator and an ordered queue that only loses its head, the events come in (y, x) sweep order |
| VoronoiSweep.ReadyStep | index.js:940-946 | taking a site keeps the loop's precondition: sorted remaining sites, the next site no earlier than the last one taken |
| VoronoiSweep.PoppedFrom | index.js:928 | no site still in the array comes before the current one |

## Left out

- Geometry: the circumcircle in `attachCircle`, the breakpoints, `addBeach`'s beach-line search, `removeBeach`'s merge of co-circular arcs, and `atan2` angles. These are floating point with epsilon tests. Circle points and angles are inputs here.
- `attachCircle`'s early returns (no neighbour arc, the same site on both sides, a convergence test against `epsilon2`) are geometry. `CircleQueue.Attach` starts where a circle has been computed.
- VoronoiSweep.Sweep: the queue is a sequence that only loses its head. `addBeach` and `removeBeach` attach and detach circles during the sweep, and they are not modelled. `CircleQueue` models those queue updates and their ordering separately.
- VoronoiSweep.Step: one pass only removes the fired circle from the queue. In the program, the `removeBeach` or `addBeach` of that pass also detaches the circles of neighbouring arcs (through `detachBeach` and `detachCircle`) and attaches new ones.
- VoronoiSweep.EveryCircleFires: holds only for a queue that only loses its head. In the program, a queued circle that is detached as a false alarm never fires.
- VoronoiSweep.EventsInOrder: the order is proved for the circles in the queue at the start only. Circles attached during the sweep are not covered.
- VoronoiSweep.SortForPop: JavaScript's `Array.prototype.sort` is modelled by an insertion sort. The order of sites at the same point may differ, which the comparator does not fix. `Sweep` returns the sorted array rather than sorting the caller's array in place.
- VoronoiDiagram.Diagram.constructor: the cells are supplied up front. The program allocates `new Array(sites.length)` and creates each cell lazily through `createCell` when `addBeach` first meets its site.
- The beach-line tree: its insertions and removals are the same `Tree` operations, but they are driven by the geometric search, which is not modelled.
- Object pooling (`beachPool`, `circlePool`) is not modelled. A removed circle node is reset, as `detachCircle` does, and any detached node can be queued again, which covers reuse from the pool.
- The arc's `circle` field and the circle's `arc`, `site` and `cy` fields: a circle is its `(x, y)` key and its arc index.
- `connectEdge`, `clipLine`, `clipEdges` and `closeCells`: floating-point clipping and border routing.
- The d3-style accessor factory, polygon packaging, the `turf-*` requires and `tests/test.js`: I/O and API surface.
- VoronoiCells.SortDescending: JavaScript's `Array.prototype.sort` is modelled by an insertion sort with the same result up to the order of equal angles, which the sort does not fix.
- Stale links: a node removed from a tree keeps its U/L/R links and colour, as `remove` leaves them. Of the modelled operations, only `detachCircle` resets them (`Tree.Clear`). `detachBeach` resets a removed arc the same way, and it is not modelled.
- RedBlackTree.Tree.Insert and RedBlackTree.Tree.Remove: their contracts do not state that the links of nodes outside the tree, other than `node`, are unchanged. The frame is left unproved.
- VoronoiEdges.HalfEdge.Start and VoronoiEdges.HalfEdge.End carry no contract of their own: they are `StartFrom` and `EndFrom` of the edge's fields, whose properties `HalfEdgesOpposite` states.

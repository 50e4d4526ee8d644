# Tree search from quartet scores: a verified model of the topology core

This project models the core of `treesearch-from-quartetscores`. The program
searches for a species tree that maximises a sum of quartet-based support
scores (LQIC, QPIC or EQPIC) by hill climbing over unrooted binary trees. The
model covers these parts:

- the tree itself, as the genesis library stores it: a half-edge ("link")
  arena with `outer`, `next`, `node` and `edge` per link, `primary` and
  `secondary` per edge, an up-link per node and a root node
  (`topology.dfy`, module `Topology`). `ValidTopology` collects the
  invariants genesis' `validate_topology` checks:
  - every index is in range;
  - `outer` is an involution between different nodes;
  - `next` cycles with length 1 (leaf) or 3 (inner node);
  - each edge owns its two ends;
  - up-links are the secondary ends of the edges above;
  - following parents from any node reaches the root;
- nearest-neighbour interchange (`nni.dfy`, `tree_operations.dfy`):
  - the in-place `nni_a_inplace` / `nni_b_inplace` with their branch on
    `p.next`, statement by statement, re-reading Y through edge i's
    secondary link wherever the code does;
  - the copying `nni_a` / `nni_b` and the enumerators `nni` and
    `nni_only_negative_lqic`;
  - the older copying duplicates in `tree_operations.hpp`;
- subtree prune and regraft (`spr.dfy`, `spr_tour.dfy`, `spr_validity.dfy`):
  - `validSprMove` with its Euler-tour scan;
  - both cases of `new_spr`, including the bounded pre-order re-orientation
    pass of the root case and its "SPR not possible" failure;
- the SPR candidate enumeration (`spr_iterator.dfy`, module
  `SprEnumeration`): the classes `SprTree` and `SprIterator` with the
  per-prune-edge mask, the `(i, j)` cursor and `jump_to_next`;
- the objective table (`objective_function.dfy`): the range-filtered sums and
  the restriction predicates of each objective;
- the hill-climb drivers (`treesearch.dfy`, `greedy.dfy`, `selection.dfy`):
  - `tree_search`;
  - `treesearch_nni`;
  - `treesearch_combo`;
- the balanced start tree, its Newick string and `treecount`
  (`starttree.dfy`);
- `taxa_to_prune` of the evaluation scripts (`rf_distance.dfy`).

## How the model is built

**Pure definitions with imperative counterparts.** Each operation is defined
once as a pure function on the arena value `Topo` (for example `Nni.NniA`,
`Spr.SprNonRoot`, `Greedy.Climb`). The source's in-place code is then a
method on the `Tree` class:
- its fields are the arena's sequences, which the method reassigns;
- it is proved to leave exactly that function's result
  (`ensures tree.Snapshot() == Nni.NniA(old(tree.Snapshot()), i)`).

The loops of the drivers and of the mask filling are methods with loop
invariants. They are proved against recursive specification functions,
whose properties are proved as lemmas.

**The score oracle is a parameter.** `recomputeScores` and the incremental
score updates become one function parameter, `score: Topo -> ScoreVectors`.
The objective value of a tree is the clipped sum of that vector for the
chosen objective.

**The `while (true)` loops take a fuel bound.** The model proves what they
return after at most `fuel` rounds: the same tree the specification function
`Climb` (or `Combo`) computes.

**NNI as the statements are written.** `nni_a_inplace` and `nni_b_inplace`
name the link Y anew in every statement, as `s.next` (or `s.next.next`) of
edge i's current secondary link s. Statements 6 and 7 may move that secondary
link, so `Nni.NniAsWritten` reads Y again before statements 7 and 9, exactly
where the code's reads would differ. On an inner edge they never differ
(`Nni.RereadsAgree`), and the statements amount to the clean exchange of the
subtrees across X and Y (`Nni.NniAsInterchange`). On an edge ending at a
leaf they can differ, and the model gives the arena the code leaves.

**Undoing a move by repeating it.** The drivers undo a move by making it a
second time:
- for NNI the model proves that this restores the tree (`Nni.NniATwice`,
  `Nni.NniBTwice`);
- for SPR, the `spr` function the drivers call is not part of the source, so
  its undo property is a precondition (`Greedy.SprUndoes`).

**Where the code and its documentation differ, the model follows the code:**
- On ((A,B),C,D), rewiring the edge at the root, the code's `nni_a` yields
  ((C,B),A,D) and its `nni_b` yields ((A,C),B,D), as tests/tests.cpp:22-35
  also expects. Some descriptions of the program name these two results
  the other way round. `Nni.QuartetNni` proves the code's orientation.
- The combo driver starts its running maximum at the LQIC sum whatever the
  objective (src/greedy.hpp:77). `Greedy.TreesearchCombo` keeps this.
- The LQIC restriction of the SPR mask (src/spr_iterator.hpp:99-119) is
  modelled as written:
  - the loop on i's side never runs, because its edge starts at the value
    the guard excludes;
  - the loop on j's side looks at the edge above j's primary node at most
    once;
  - `SprEnumeration.LqicReadsOneScore` states this.
- `fill_spr_ok_for_i` also clears every edge on the path from i up to the
  root. `validSprMove` accepts these moves, but the iterator never offers
  them (`SprEnumeration.AncestorEdgeWithheld`).

## Model

| member | source | states |
|---|---|---|
| Topology.ValidTopology | src/nni.hpp:33-35 | the invariants `validate_topology` checks: indices in range, two links per edge and one node more than edges, `outer` an involution across nodes, `next` cycles of length 1 or 3, each edge owning its ends, up-links on the edges above, every node reaching the root |
| Topology.Tree.Assign | src/greedy.hpp:84 | copy assignment `tnew = best`: every field of the tree takes the other tree's value |
| Topology.Tree.Copy | src/greedy.hpp:15 | the copy constructor: the new tree has the same topology as its argument |
| Topology.Parents | src/spr_iterator.hpp:82 | the parent of a node is the node across the edge above it (`node().link().edge()`); the root is its own parent; the result is a parent map over all nodes |
| Topology.LeafByAnyLink | src/nni.hpp:24 | a node is inner (`is_inner`) exactly when the `next` cycle of any of its links has length 3 |
| Topology.ParentAcrossUp | src/spr.hpp:49 | a non-root node's up-link is paired with the primary link of the edge above, whose node is the parent |
| ParentMaps.InterchangeReachesRoot | src/nni.hpp:92-99 | exchanging the parents of a child of u and a child of v (v itself a child of u) keeps every node connected to the root |
| ParentMaps.SprReachesRoot | src/spr.hpp:66-68 | pruning u with v's subtree (w moves up to g) and inserting u between x and its parent y keeps every node connected to the root when y is not below v |
| Nni.NniFacts | src/nni.hpp:69-70 | the branch on `p.next` picks X = p.next.next exactly when p.next is u's up-link, so X is always a child link of u; X, Y and their outer links are four distinct links on four distinct nodes |
| Nni.PrimarySideLinkStable | src/nni.hpp:69-70 | after the interchange the branch test picks the same X (and the same Y), so the second application works on the same links |
| Nni.ResetOuters | src/nni.hpp:72-79 | statements 1-5 write only `outer` fields: primaries, secondaries, `next` and `edge` are unchanged |
| Nni.ResetSecondary | src/nni.hpp:81-84 | statements 6 and 7 write only the secondary end of one edge |
| Nni.ResetEdge | src/nni.hpp:86-89 | statements 8 and 9 write only the `edge` field of one link |
| Nni.NniAsWritten | src/nni.hpp:68-161 | the nine statements, with Y re-read through edge i's secondary link before statements 7 and 9, leave a well-formed arena on every edge index, leaf edges included |
| Nni.NniA | src/nni.hpp:68-111 | the tree nni_a_inplace leaves is well formed for every edge index |
| Nni.NniB | src/nni.hpp:119-161 | the tree nni_b_inplace leaves is well formed for every edge index |
| Nni.RereadsAgree | src/nni.hpp:81-89 | when neither X's edge nor Y's edge is edge i, re-reading Y finds the same link, so the statements are the exchange of fixed X and Y |
| Nni.NniAsInterchange | src/nni.hpp:68-161 | on an inner edge of a valid tree, nni_a and nni_b as written equal the clean interchange of X with s.next (nni_a) or s.next.next (nni_b) |
| Nni.AsWrittenIsInterchange | src/nni.hpp:92-109 | the nine pointer updates in the source's order, each reading the writes before it, have the effect of the clean exchange of the subtrees across X and Y |
| Nni.InterchangeEffect | src/nni.hpp:92-109 | on an inner edge, X and Y trade outer partners with symmetric back-pointers; the two edges keep X and Y as primary ends and take the new partners as secondary ends; the moved links' edge field follows; primaries, `next`, nodes, up-links, edge i and all other links are unchanged |
| Nni.InterchangeParents | src/nni.hpp:92-109 | exactly two nodes change parent: the child across X moves below v and the child across Y moves below u |
| Nni.NniATwice | src/nni.hpp:68-111 | applying nni_a twice with the same inner edge restores every field of the tree |
| Nni.NniBTwice | src/nni.hpp:119-161 | applying nni_b twice with the same inner edge restores every field of the tree |
| Nni.NniAValid | src/nni.hpp:68-111 | nni_a on an inner edge of a valid tree yields a valid tree in which the edge is still inner |
| Nni.NniBValid | src/nni.hpp:119-161 | nni_b on an inner edge of a valid tree yields a valid tree in which the edge is still inner |
| Nni.NniAParents | src/nni.hpp:68-111 | nni_a moves the child across X below v and the child across Y = s.next below u; no other node changes parent |
| Nni.NniBParents | src/nni.hpp:119-161 | nni_b is the same exchange with Y = s.next.next |
| Nni.ExchangeSubtrees | src/nni.hpp:92-109 | the in-place statements, reading Y from the tree object again before statements 7 and 9, leave exactly NniAsWritten of the old tree |
| Nni.PartnerOf | src/nni.hpp:73-75 | reading s.next (or s.next.next) from the tree object gives the Y of the current arena |
| Nni.PrimarySideLinkOf | src/nni.hpp:69-72 | the branch test read from the tree object gives X |
| Nni.NniAInPlace | src/nni.hpp:68-111 | nni_a_inplace leaves the tree NniA of the old tree |
| Nni.NniBInPlace | src/nni.hpp:119-161 | nni_b_inplace leaves the tree NniB of the old tree |
| Nni.NniACopy | src/nni.hpp:62-66 | nni_a returns a fresh tree holding NniA of the argument, which is not modified |
| Nni.NniBCopy | src/nni.hpp:113-117 | nni_b returns a fresh tree holding NniB of the argument, which is not modified |
| Nni.InnerEdgesExact | src/nni.hpp:22-25 | an edge is expanded by nni exactly when both its end nodes are inner |
| Nni.InnerEdgesSorted | src/nni.hpp:22 | the expanded edges come in ascending edge order |
| Nni.NonPositiveInnerEdgesExact | src/nni.hpp:42-47 | nni_only_negative_lqic expands an edge exactly when both ends are inner and its score is not positive (a score of 0 is expanded) |
| Nni.NonPositiveAllInner | src/nni.hpp:46-47 | with no positive score, nni_only_negative_lqic expands the same edges as nni |
| Nni.NniResultsLayout | src/nni.hpp:27-31 | position 2k of the result holds the nni_a tree of the k-th expanded edge and position 2k + 1 its nni_b tree |
| Nni.NniResultsValid | src/nni.hpp:33-35 | on a valid tree every listed tree is valid |
| Nni.ValidNeverBreaks | src/nni.hpp:33-35 | on a valid tree no inner edge yields an invalid rewiring, so the check never throws |
| Nni.AppendNeighbours | src/nni.hpp:27-35 | one expansion appends the nni_a tree, then the nni_b tree, and reports failure exactly when one of them is invalid |
| Nni.ExpandInner | src/nni.hpp:22-36 | one pass of the nni loop expands edge i exactly when it is inner |
| Nni.ExpandNonPositive | src/nni.hpp:42-58 | one pass of the nni_only_negative_lqic loop expands edge i exactly when it is inner and its score is not positive |
| Nni.InnerNeighbours | src/nni.hpp:22-36 | the nni loop lists both rewirings of every inner edge in ascending order; it reports failure exactly when some inner edge has an invalid rewiring, and then names one |
| Nni.NonPositiveNeighbours | src/nni.hpp:42-58 | the same for the edges whose score is not positive |
| Nni.Nni | src/nni.hpp:20-38 | nni returns both rewirings of every inner edge in ascending order, a before b; it fails, with "NNI produced invalid topology!", exactly when some inner edge has an invalid rewiring, and never on a valid tree |
| Nni.NniOnlyNegativeLqic | src/nni.hpp:40-60 | as nni, restricted to inner edges with a score that is not positive; it fails exactly when one of those edges has an invalid rewiring |
| Nni.QuartetNni | tests/tests.cpp:22-35 | on ((A,B),C,D) with the root edge, nni_a gives ((C,B),A,D) and nni_b gives ((A,C),B,D) |
| TreeOperations.NniA | src/tree_operations.hpp:129-176 | the copying nni_a rewires only a fresh copy and returns NniA of the argument, the same statements as nni_a_inplace on every edge |
| TreeOperations.NniB | src/tree_operations.hpp:178-222 | the copying nni_b rewires only a fresh copy and returns NniB of the argument, the same statements as nni_b_inplace on every edge |
| TreeOperations.NeighboursOfEdge | src/tree_operations.hpp:113-125 | one pass of the loop appends both rewirings of edge i when it is inner and nothing otherwise |
| TreeOperations.Neighbours | src/tree_operations.hpp:111-127 | nni lists both rewirings of every inner edge in ascending order, without validation; on a valid tree every listed tree is valid |
| Spr.ReconnectSecondary | src/spr.hpp:66-68 | reconnect_node_secondary(e, l): l becomes e's secondary end, paired with e's primary link, and its edge field is e; nothing else about edges, nodes or rotations changes |
| Spr.ReconnectPrimary | src/spr.hpp:82 | reconnect_node_primary(e, l): l becomes e's primary end, paired with e's secondary link |
| Spr.ReconnectNodeSecondary | src/spr.hpp:66-68 | the in-place primitive leaves ReconnectSecondary of the old tree |
| Spr.ReconnectNodePrimary | src/spr.hpp:82 | the in-place primitive leaves ReconnectPrimary of the old tree |
| Spr.ValidSprMove | src/spr.hpp:25-37 | validSprMove accepts a pair only when both indices are in range and differ (the full condition is Spr.ValidSprMoveIff) |
| Spr.SprNonRoot | src/spr.hpp:44-69 | the non-root case of new_spr leaves a well-formed arena |
| Spr.Visit | src/spr.hpp:88-99 | one visit of the pass changes only edge directions and up-links: `outer`, `next`, nodes, link edges and the root are kept, and so are the counts |
| Spr.SprRoot | src/spr.hpp:71-108 | the root case of new_spr (three reconnections, then the bounded pass) leaves a well-formed arena |
| Spr.TourMeetsIffTourEdge | src/spr.hpp:31-34 | the Euler tour meets the regraft edge before its break exactly when that edge is among the tour's edges |
| Spr.ValidSprMoveIff | src/spr.hpp:25-37 | validSprMove is true exactly when both indices are in range, they differ, regraft is neither of the two other edges at prune's primary node, and regraft is not met on the tour below prune |
| Spr.PruneOnTour | src/spr.hpp:31-32 | the tour starts on prune's own edge |
| SprTour.Descend | src/spr.hpp:31-34 | from a node's first child link the tour visits only links of the node's subtree, reaches every node of it and returns to the node's up-link after 2(size - 1) steps |
| SprTour.ValidSprMoveMeaning | src/spr.hpp:25-37 | validSprMove accepts exactly the distinct in-range pairs where regraft is not beside prune's primary node and regraft's upper node is not in the subtree below prune |
| SprTour.AcceptedSprNonRootValid | src/spr.hpp:44-69 | every move validSprMove accepts away from the root keeps the tree valid: u moves between y and x, w takes u's place under u's old parent, every other node keeps its parent |
| Spr.NonRootLinksOf | src/spr.hpp:46-64 | the parent, sibling and secondary links new_spr reads before reconnecting are links and edges of the tree |
| SprValidity.SprNonRootIsRotation | src/spr.hpp:61-68 | the three reconnections of the non-root case rotate the secondary ends of the parent edge, the regraft edge and the sibling edge |
| SprValidity.RotateValid | src/spr.hpp:66-68 | such a rotation keeps every tree invariant when the new parent map reaches the root |
| SprValidity.SprNonRootValid | src/spr.hpp:44-69 | the non-root case keeps the tree valid for every regraft edge that is not prune, not beside it and not below it, and it re-parents exactly u, x and w |
| Spr.RootReconnect | src/spr.hpp:74-84 | the three reconnections of the root case keep the arena well-formed and change only outer, edge and edge-end fields |
| Spr.VisitOrients | src/spr.hpp:88-99 | a visit at a non-root node makes the visited link the secondary end of its edge (swapping the ends when needed) and the node's up-link |
| Spr.VisitAtRoot | src/spr.hpp:88-99 | a visit at the root changes nothing |
| Spr.Pass | src/spr.hpp:86-108 | the pre-order pass keeps the tree well formed and changes only edge directions and up-links |
| Spr.PassFinishes | src/spr.hpp:100-107 | the pass gives up only after more than link_count visits |
| Spr.SprNonRootInPlace | src/spr.hpp:58-68 | the in-place non-root case leaves SprNonRoot of the old tree |
| Spr.RootReconnectInPlace | src/spr.hpp:74-84 | the in-place reconnections leave RootReconnect of the old tree |
| Spr.VisitInPlace | src/spr.hpp:88-99 | one in-place visit leaves Visit of the old tree |
| Spr.PassStep | src/spr.hpp:87-107 | one visit either ends the pass with the specified outcome or continues it from the next stack entry |
| Spr.PreorderPass | src/spr.hpp:86-108 | the in-place pass leaves the tree the specification gives and fails with "SPR not possible" exactly when it exceeds link_count visits |
| Spr.NewSpr | src/spr.hpp:39-111 | new_spr takes the root case exactly when prune's primary node is the root; the non-root case always succeeds with SprNonRoot; the root case leaves SprRoot and fails with "SPR not possible" exactly when the pass does |
| SprEnumeration.TourMask | src/spr_iterator.hpp:74-78 | the mask starts all true and clears exactly the edges the tour below i meets before its break |
| SprEnumeration.ClearAncestors | src/spr_iterator.hpp:79-84 | the do-while clears i and the edge above every node from i's primary node up to the root, inclusive, and nothing else |
| SprEnumeration.ScanPath | src/spr_iterator.hpp:101-106 | one path loop as written inspects at most the start edge and clears skip when that edge does not end at the ancestor, is not the stop edge and has a negative score |
| SprEnumeration.LqicMask | src/spr_iterator.hpp:89-121 | with a score vector installed, regraft edge j stays offered exactly when it was and LqicKeeps holds |
| SprEnumeration.FillMask | src/spr_iterator.hpp:73-122 | fill_spr_ok_for_i leaves the mask that offers edge e exactly when Offered(i, e) holds |
| SprEnumeration.OfferedIsValidMove | src/spr_iterator.hpp:73-87 | every regraft edge the mask offers is a move validSprMove accepts |
| SprEnumeration.UnrestrictedOffered | src/spr_iterator.hpp:73-88 | without scores the mask offers exactly the valid moves whose regraft edge is not on i's path to the root; below the root that is every valid move |
| SprEnumeration.AncestorEdgeWithheld | src/spr_iterator.hpp:79-84 | the edges above i are valid moves that the mask never offers |
| SprEnumeration.OfferedMoveKeepsValid | src/spr_iterator.hpp:73-87 | an offered move away from the root keeps the tree valid |
| SprEnumeration.LqicReadsOneScore | src/spr_iterator.hpp:99-119 | under LQIC only the score of the edge above j's primary node matters, and a j hanging from the root is always cleared |
| SprEnumeration.Row | src/spr_iterator.hpp:67-71 | the mask stays that of the last prune edge once i runs past the end |
| SprEnumeration.JumpAdvances | src/spr_iterator.hpp:154-170 | jump_to_next moves strictly forward in (i, j) order and lands on an offered pair unless it ran past the last prune edge |
| SprEnumeration.JumpInStep | src/spr_iterator.hpp:154-170 | from inside the grid, jump_to_next skips exactly the pairs the masks withhold, keeps the mask in step with i, and otherwise ends at (edge_count, 0) |
| SprEnumeration.Jump | src/spr_iterator.hpp:154-170 | where jump_to_next stops: j always lies below the edge count |
| SprEnumeration.SprTree.constructor | src/spr_iterator.hpp:46-51 | SPRtree(tree, i): base and current tree are the given tree and the mask is filled for i |
| SprEnumeration.SprTree.Copy | src/spr_iterator.hpp:53-59 | the copy constructor copies every field |
| SprEnumeration.SprTree.Get | src/spr_iterator.hpp:63-65 | get() returns the current tree |
| SprEnumeration.SprTree.FillSprOkForI | src/spr_iterator.hpp:73-122 | refilling leaves the mask of prune edge i and changes nothing else |
| SprEnumeration.SprTree.NextI | src/spr_iterator.hpp:67-71 | next_i increments i and refills the mask only while i is below the edge count |
| SprEnumeration.SprTree.RestrictByLqic | src/spr_iterator.hpp:132-135 | restrict_by_lqic installs the score vector and refills the mask |
| SprEnumeration.SprTree.Begin | src/spr_iterator.hpp:124-126 | begin() is the iterator at (0, 0), moved on to the first offered pair when (0, 0) is withheld |
| SprEnumeration.SprTree.End | src/spr_iterator.hpp:128-130 | end() is the iterator at (edge_count, 0) over a copy of this SPR tree, moved on as the constructor's jump says when (edge_count, 0) is withheld, so always at or past the last prune edge |
| SprEnumeration.SprIterator.Init | src/spr_iterator.hpp:143-148 | the constructor copies the SPR tree and jumps on unless (i, j) is offered |
| SprEnumeration.SprIterator.JumpToNext | src/spr_iterator.hpp:154-170 | the in-place loop leaves (i, j) and the mask row where Jump says; the base and current trees and the scores are unchanged |
| SprEnumeration.SprIterator.Increment | src/spr_iterator.hpp:172-181 | operator++ jumps, applies spr to a copy of the unchanged base tree when still inside the grid, and returns a new iterator at that position |
| SprEnumeration.SprIterator.Eq | src/spr_iterator.hpp:183-185 | operator== compares the positions (i, j) only, not the trees |
| SprEnumeration.SprIterator.NotEq | src/spr_iterator.hpp:187-191 | operator!= implies not operator==: two iterators at the same position are never unequal |
| SprEnumeration.NotEqMeaning | src/spr_iterator.hpp:183-191 | != is the negation of == except that any two iterators past the last prune edge compare equal |
| Objective.ClippedSum | src/objective_function.hpp:8-14 | the clipped sum of n entries lies in [-n, n] |
| Objective.ClippedSumKeepsInRange | src/objective_function.hpp:11-12 | the clipped sum adds exactly the entries in [-1, 1] and ignores all others |
| Objective.ClippedSumAllInRange | src/objective_function.hpp:11-12 | when every entry lies in [-1, 1] the clipped sum is the plain sum |
| Objective.ClippedSumIgnoresOutOfRange | src/objective_function.hpp:12 | replacing an out-of-range entry by another out-of-range value leaves the sum unchanged |
| Objective.SumInRange | src/objective_function.hpp:10-13 | the accumulation loop returns the clipped sum |
| Objective.SumLqicScores | src/objective_function.hpp:8-14 | sum_lqic_scores is the clipped sum of the LQIC vector |
| Objective.SumQpicScores | src/objective_function.hpp:17-23 | sum_qpic_scores is the clipped sum of the QPIC vector |
| Objective.SumEqpicScores | src/objective_function.hpp:26-32 | sum_eqpic_scores is the clipped sum of the EQPIC vector |
| Objective.ObjFun | src/objective_function.hpp:52-85 | obj_fun of every objective is bounded by the length of that objective's vector |
| Objective.ObjFunOf | src/objective_function.hpp:48-102 | the dispatch calls the summing routine of the chosen objective |
| Objective.GetScores | src/objective_function.hpp:62-97 | getScores returns one of the three score vectors, the objective's own |
| Objective.SetScore | src/objective_function.hpp:63-98 | setScore keeps the length of the objective's vector |
| Objective.NniRestrictEdge | src/objective_function.hpp:56-92 | nni_restrict_edge holds only for LQIC under a restricted search |
| Objective.SprRestrictEdgePair | src/objective_function.hpp:59-96 | spr_restrict_edgepair holds only for LQIC under a restricted search |
| Objective.GetSetScore | src/objective_function.hpp:62-98 | setScore writes one entry of the objective's own vector, getScores reads it back, and the other objectives' vectors are untouched |
| Objective.RestrictOnlyLqic | src/objective_function.hpp:72-96 | QPIC and EQPIC never restrict an NNI edge or an SPR pair, and neither does an unrestricted search |
| Objective.RestrictedNniEdges | src/objective_function.hpp:56-58 | under restricted LQIC the inner edges an NNI search may try are exactly those nni_only_negative_lqic expands |
| Selection.FirstMax | src/treesearch.hpp:12-29 | the running maximum is NoPick (lowest()) exactly for no candidates, otherwise a candidate's index and score |
| Selection.FirstMaxSnoc | src/treesearch.hpp:25-28 | one more candidate takes over exactly when nothing was picked or it scores strictly more |
| Selection.FirstMaxIsMax | src/treesearch.hpp:15-29 | no candidate scores more than the pick |
| Selection.FirstMaxIsFirst | src/treesearch.hpp:25 | every candidate before the pick scores strictly less: the first of equal scores wins |
| Selection.ObjScores | src/greedy.hpp:34 | the score list holds the objective value of each candidate in order |
| TreeSearch.Climb | src/treesearch.hpp:12-36 | the climb of tree_search, at most fuel rounds, always stays on well-formed arenas; its properties are the lemmas below |
| TreeSearch.Round | src/treesearch.hpp:12-29 | a round picks a neighbour of nni(tnew) together with its LQIC sum |
| TreeSearch.RoundIsFirstBest | src/treesearch.hpp:15-29 | the pick is a best neighbour, and the first one of that score |
| TreeSearch.ClimbMoves | src/treesearch.hpp:30-32 | an improving round moves to the picked neighbour |
| TreeSearch.ClimbImproves | src/treesearch.hpp:30-36 | the search returns its input or a tree scoring strictly more: oldscore strictly increases with every move |
| TreeSearch.ClimbConverged | src/treesearch.hpp:34-36 | when the search stops by itself, no neighbour of the returned tree scores more |
| TreeSearch.ClimbStaysValid | src/treesearch.hpp:14-31 | from a valid tree every tree the search visits is valid |
| TreeSearch.BestNeighbour | src/treesearch.hpp:15-29 | the argmax loop returns the first maximum of the neighbours' LQIC sums |
| TreeSearch.SearchRound | src/treesearch.hpp:12-36 | one round moves to the first best neighbour when it strictly beats oldscore, and otherwise the search ends where it is |
| TreeSearch.TreeSearch | src/treesearch.hpp:7-43 | tree_search works on a copy and returns the last committed tree of the climb, or its input when nothing was committed |
| Greedy.Climb | src/greedy.hpp:22-61 | the climb of treesearch_nni, at most fuel rounds, always stays on well-formed arenas; its properties are the lemmas below |
| Greedy.UnrestrictedExact | src/greedy.hpp:31 | an edge is let through exactly when nni_restrict_edge does not hold for it |
| Greedy.TriedExact | src/greedy.hpp:28-31 | a round tries an edge exactly when both its end nodes are inner and the objective does not restrict it |
| Greedy.Round | src/greedy.hpp:28-48 | a round picks one of its candidates together with its objective value |
| Greedy.RoundIsFirstBest | src/greedy.hpp:35-46 | the pick scores at least as much as every candidate and strictly more than every earlier one |
| Greedy.ClimbMoves | src/greedy.hpp:50-53 | an improving round commits the picked candidate |
| Greedy.ClimbImproves | src/greedy.hpp:50-60 | the climb returns its start or a tree scoring strictly more: oldscore strictly increases |
| Greedy.ClimbConverged | src/greedy.hpp:58-59 | when the climb stops by itself, no tried neighbour of the returned tree scores more |
| Greedy.ClimbStaysValid | src/greedy.hpp:50-51 | from a valid tree every committed tree is valid |
| Greedy.UnrestrictedLqicIsTreeSearch | src/greedy.hpp:22-61 | unrestricted and under LQIC, treesearch_nni takes exactly the steps of tree_search |
| Greedy.ScoredStep | src/greedy.hpp:28-31 | reaching edge i adds its nni_a and nni_b trees exactly when the round tries it |
| Greedy.PickTwoMore | src/greedy.hpp:35-46 | scoring the nni_a and then the nni_b tree updates the running maximum one candidate at a time |
| Greedy.ConsiderTwo | src/greedy.hpp:33-47 | after one edge the running maximum and the copy `best` still match the scored candidates |
| Greedy.ScanAtIsFirstMax | src/greedy.hpp:28-48 | the edge loop keeps the first best of the candidates scored so far, with a copy of its tree |
| Greedy.ValidNniUndoes | src/greedy.hpp:39-47 | on a valid tree applying nni_a (or nni_b) to an inner edge a second time restores the tree |
| Greedy.TryMove | src/greedy.hpp:33-39 | apply, score and undo one move: the tree is back as it was and the running maximum has considered the moved tree |
| Greedy.TryEdge | src/greedy.hpp:28-48 | one edge of the loop: skipped unless tried, else both rewirings are scored and undone, leaving the tree unchanged |
| Greedy.EdgeLoop | src/greedy.hpp:28-48 | the edge loop ends with the scan over all edges and the tree unchanged |
| Greedy.NniRound | src/greedy.hpp:23-48 | a round returns the round's pick and a copy of its tree, leaving tnew as it was |
| Greedy.NniStep | src/greedy.hpp:23-60 | one pass commits the best candidate only when it strictly beats oldscore, raising oldscore, and otherwise ends the climb |
| Greedy.NniLoop | src/greedy.hpp:22-61 | the while loop returns the tree the climb ends on |
| Greedy.TreesearchNni | src/greedy.hpp:8-65 | treesearch_nni works on a copy and returns global_best, the climb's last committed tree: valid, and the input or strictly better |
| Greedy.FirstBetter | src/greedy.hpp:87-107 | the pass commits an offered pair at or after (i, j) whose tree beats max |
| Greedy.FirstBetterIsFirst | src/greedy.hpp:87-107 | no pair before the committed one in row-major order, and none at all when nothing is committed, beats max |
| Greedy.AfterMove | src/greedy.hpp:108-116 | after a committed move the NNI climb's tree is kept only when it scores strictly more; the kept tree is valid and scores at least as much as the moved tree |
| Greedy.Combo | src/greedy.hpp:82-117 | every tree the combo search returns is valid |
| Greedy.ComboMoves | src/greedy.hpp:108-116 | a pass that commits a move continues from the improved tree with one pass less |
| Greedy.ComboNeverWorse | src/greedy.hpp:96-116 | max never decreases: the search returns its start, or a tree scoring strictly more than the starting max |
| Greedy.SprTry | src/greedy.hpp:89-105 | one pair: skipped unless offered; a move that beats max is kept with its score; any other is undone |
| Greedy.SprRow | src/greedy.hpp:88-106 | one row yields its first committed pair, or the tree unchanged and the search moves on to the next row |
| Greedy.SprPass | src/greedy.hpp:87-107 | the pass yields the first committed pair in row-major order with the moved tree, or the tree unchanged |
| Greedy.ComboStep | src/greedy.hpp:83-116 | one iteration either ends the search at best or continues it from the new best and max |
| Greedy.ComboLoop | src/greedy.hpp:82-117 | the while loop returns the tree the combo search ends on |
| Greedy.TreesearchCombo | src/greedy.hpp:68-120 | treesearch_combo starts max at the LQIC sum of its input and returns the combo search's valid result |
| StartTree.Root | src/starttree.hpp:14-37 | the root has three children and no name |
| StartTree.Newick | src/starttree.hpp:41-52 | rec_make_newick's string starts with '(' and ends with ')' |
| StartTree.TreeNewick | src/starttree.hpp:41-54 | the tree's Newick string starts with '(' and ends with ");" |
| StartTree.Treecount | src/starttree.hpp:117-120 | treecount on unbounded integers is at least 1 for every n >= 3 |
| StartTree.BuildTree | src/starttree.hpp:19-30 | a range of width 1 becomes a leaf and every wider range an inner node |
| StartTree.BuildTreeLeaves | src/starttree.hpp:20-30 | the range's leaves appear exactly once each and in input order; inner nodes have exactly two children |
| StartTree.RootLeaves | src/starttree.hpp:14-36 | the root has exactly three children over [0, a), [a, 2a) and [2a, n) with a = n / 3, and all leaves appear once in order |
| StartTree.NewickFacts | src/starttree.hpp:41-52 | without punctuation in the names, a node's Newick string strips to its leaf names in order and balances '(' and ')' |
| StartTree.BuildTreePlain | src/starttree.hpp:20-30 | the builder leaves inner nodes unnamed |
| StartTree.TreeNewickFacts | src/starttree.hpp:41-54 | the start tree's Newick string lists every leaf name once in input order, balances its parentheses and ends in ';' |
| StartTree.ThreeLeaves | src/starttree.hpp:41-54 | three leaves give "(l0,l1,l2);" |
| StartTree.TreecountIsDoubleFactorial | src/starttree.hpp:117-120 | treecount(n) is (2n - 5)!! |
| StartTree.TreecountGrows | src/starttree.hpp:117-120 | treecount is monotone in n |
| StartTree.TreecountAt19And20 | src/starttree.hpp:117-120 | treecount(19) fits 64 bits; treecount(20) does not |
| StartTree.Treecount64 | src/starttree.hpp:117-120 | the uint64 result always lies below 2^64 |
| StartTree.Treecount64Exact | src/starttree.hpp:117-120 | up to 19 leaves the uint64 result equals the true count |
| StartTree.Treecount64WrapsAt20 | src/starttree.hpp:117-120 | at 20 leaves the uint64 result has wrapped and differs from the true count |
| RfDistance.Found | eval/rf_distance.py:30-34 | the inner loop reports exactly whether some taxon of the other namespace has the same string form |
| RfDistance.AppendMissing | eval/rf_distance.py:29-36 | one outer loop appends exactly the missing taxa, in namespace order |
| RfDistance.TaxaToPrune | eval/rf_distance.py:27-45 | the result is the missing taxa of tree 1 followed by those of tree 2 |
| RfDistance.MissingExact | eval/rf_distance.py:29-36 | a taxon is in the first part exactly when it is in tree 1 and its string names no taxon of tree 2 |
| RfDistance.MissingAppend | eval/rf_distance.py:29-36 | the missing part keeps namespace order: it distributes over concatenation |
| RfDistance.PruneExact | eval/rf_distance.py:27-45 | a taxon is returned exactly when its string is missing from the other namespace |
| RfDistance.SharedNeverPruned | eval/rf_distance.py:32-43 | a taxon whose string occurs in both namespaces is never returned |
| RfDistance.SameNamesPruneNothing | eval/rf_distance.py:27-45 | identical name lists give an empty result |
| RfDistance.MissingFromEmpty | eval/rf_distance.py:29-36 | against an empty namespace every taxon is returned, in order |

## Left out

- The quartet score computer (`recomputeScores`, `recomputeLqicForEdge`, `getLQICScores`, `spr_lqic_update` and the `*_with_*_update` functions) is not part of this model. It is foreign, floating-point code. A score function `score: Topo -> ScoreVectors` stands in for it, and its incremental updates are taken to give the same vectors as a full recompute.
- Scores are Dafny `real`s: double rounding and NaN are not modelled.
- `lowest()` as the initial `max` of an argmax loop is modelled as `NoPick`. The loop only reads it through the first comparison, which any finite score wins.
- Greedy.TreesearchNni, Greedy.TreesearchCombo and TreeSearch.TreeSearch run their `while (true)` loops for at most `fuel` rounds (or passes). The result is proved equal to the specification's climb of the same length. Termination of the unbounded loop is not modelled.
- Greedy.ScoresFitEdges is a precondition of the NNI drivers: the score vector has an entry for every edge, as `nni_restrict_edge` indexes it by edge.
- Greedy.TreesearchCombo takes the `spr` function the drivers call and `has_negative_lqic_on_spr_path` as parameters, since neither is part of the source. The requirement that a valid move keeps the tree valid and is undone by repeating it is the precondition `Greedy.SprUndoes`.
- Spr.NewSpr: the root case (prune's primary node is the root) is modelled step by step, but the model does not prove that it keeps the tree valid. Only the non-root case carries the validity proof.
- `reconnect_node_secondary` / `reconnect_node_primary` are genesis functions whose code is not part of this model. The model defines them as setting the edge end, the link's edge field and both outer pointers, leaving up-links alone.
- `validate_topology` is the predicate `ValidTopology`. `eulertour`, `preorder` and the lowest common ancestor of `TreeInformation` are explicit tours, explicit stacks and a function parameter `lca`.
- SprEnumeration.SprIterator.Increment takes `spr` as a parameter and copies the base tree as a value. The iterator's pointer return and its ownership are not modelled.
- The Newick reader and writer of genesis, and the conversion of the start tree's Newick string into a genesis tree, are not part of this model.
- StartTree.BuildTree, StartTree.Root and StartTree.TreeNewick require at least three leaves. With fewer, the first range is empty and the source recurses without end.
- StartTree.Treecount requires n >= 3. Below 3 the source recursion never reaches its base case.
- StartTree.Treecount64 models the uint64 arithmetic of `treecount` by explicit reduction modulo 2^64. The unbounded StartTree.Treecount is the reference.
- `random_tree` and `make_random_nni_moves` (both files), `stepwise_addition_*` and `exhaustive_search*` are left out. They need file input, random shuffles, oracle calls and `add_new_node`.
- The simulated annealing, tree reduction and distance score code, `main`, the random number generator and the evaluation scripts other than `taxa_to_prune` are left out. They are I/O, floating-point and driver code outside the topology core.
- RfDistance.TaxaToPrune takes Python's `str()` on a taxon as a parameter function and namespaces as sequences. dendropy's taxon objects are not modelled.
- Logging and printing (`LOG_*`, `std::cout`) are left out.

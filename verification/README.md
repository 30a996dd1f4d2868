# Single-elimination bracket manager, modelled in Dafny

This project models `BTSingleElimDaw48`, a manager for single-elimination
tournaments. The manager keeps the bracket as a binary tree. Each node holds an
optional player and a score. The two children of a node play a match, and the
winner moves up into the node.

- `setPlayers` builds the bracket.
  - It grows a size-balanced skeleton of 2^h − 1 blank nodes, where
    h = ⌈log2 n⌉.
  - It hangs the first 2n − 2^h players in pairs under childless nodes.
  - It drops each remaining "bye" player into the first empty leaf of a
    right-to-left level-order search.
  - It queues the level-order positions 2n − 2, …, 1.
- `nextMatch` polls two positions, the right one first, and returns the match
  between the nodes there.
- `setMatchScore` records both scores and promotes the winner to the parent.
  Ties go to the right player.

The model is functional. A tree is an immutable `Node` value, and a node is
identified by its path from the root. The program tells nodes apart by
reference; in a tree without sharing, the node and its position determine each
other.

The program's breadth-first search is written twice:

- `Traversal.Bfs` is the program's loop over a FIFO worklist;
- `Traversal.Search` is a pure level-order listing (`LevelOrder`) scanned for
  the first accepted node.

The method is proved equal to the function. The program's lambdas keep a
counter in an `AtomicInteger`. Here that counter is the visit index, which is
passed to the search predicate. The `AtomicReference` result becomes the
search's return value.

The four modules follow the program's parts:

| file | module | contents |
|---|---|---|
| `tree.dfy` | `BracketTree` | nodes, positions, `size`, in-place relabelling as a shape-preserving update |
| `traversal.dfy` | `Traversal` | `bfs` with its direction flag, `getNodeAt`, `getParent`, `getEmptyLeaf` |
| `builder.dfy` | `Builder` | `appendNode`, `addPlayers`, `buildTree` with its four loops |
| `manager.dfy` | `Manager` | the manager state, `setPlayers`, `hasNextMatch`, `nextMatch`, `setMatchScore`, `getPosition`, a whole tournament |

Other modelling choices:

- `hasNextMatch` is the predicate `Manager.HasNextMatch`: the queue is
  non-empty. On a scheduled manager this means a whole pair of positions is
  left, and `nextMatch` then finds both nodes (`Manager.HasNextMatchPairs`).
- The two short `bfs` overloads search from the root. They are `Traversal.Bfs`
  applied to the root, with `rtl` false or as given.

The central result is `Manager.RunCompetition`, the driver loop of
`CompetitionManager` with the scores given as a sequence. It builds the
bracket, then plays one round per queued pair. Every match played is between
two registered players. Position 0 then holds the winner of the final, who is
one of them. The proof rests on an invariant, `Manager.Ready`:

- every leaf holds a player;
- every inner node whose children have already been played holds a player.

In a full tree, the children of the node at level-order position i sit at
positions c + 1 and c + 2, where c is the number of children enqueued before
it (`Traversal.KidsPlaced`). The queue counts positions down, so an inner node
is reached only after both its children.

## Model

| member | source | states |
|---|---|---|
| BracketTree.Size | src/cs21120/assignment/solution/BTSingleElimDaw48.java:393-405 | the size of a node is at least 1, and it is exactly 1 iff the node has no children |
| BracketTree.Relabel | src/cs21120/assignment/solution/BTSingleElimDaw48.java:364-367 | assigning a node's player and score in place keeps the tree's shape and puts the new label at that position |
| BracketTree.RelabelAt | src/cs21120/assignment/solution/BTSingleElimDaw48.java:364-367 | after a relabel, every other position keeps its player and score; the relabelled one carries exactly the new pair |
| BracketTree.RelabelKeeps | src/cs21120/assignment/solution/BTSingleElimDaw48.java:225 | giving a player to a node that had none moves no player already placed |
| BracketTree.RelabelPlayers | src/cs21120/assignment/solution/BTSingleElimDaw48.java:224-226 | relabelling replaces the node's old player by the new one in the multiset of the tree's players |
| BracketTree.RelabelEmptyLeaf | src/cs21120/assignment/solution/BTSingleElimDaw48.java:224-226 | giving a player to an empty leaf lowers the number of empty leaves by exactly one |
| BracketTree.ShapeSize | src/cs21120/assignment/solution/BTSingleElimDaw48.java:393-405 | two trees of the same shape have the same size, and one is full iff the other is |
| BracketTree.SeededLeaves | src/cs21120/assignment/solution/BTSingleElimDaw48.java:224-226 | a tree whose inner nodes are blank and which has no empty leaf holds a player exactly at its leaves |
| Traversal.Walk | src/cs21120/assignment/solution/BTSingleElimDaw48.java:171-195 | a worklist run to exhaustion visits exactly as many nodes as its subtrees hold |
| Traversal.LevelOrder | src/cs21120/assignment/solution/BTSingleElimDaw48.java:168-196 | the level-order listing has one entry per node and starts at the root |
| Traversal.FindFrom | src/cs21120/assignment/solution/BTSingleElimDaw48.java:176-178 | the early exit stops at the least visit accepted by the predicate; when nothing is accepted, no visit was |
| Traversal.Bfs | src/cs21120/assignment/solution/BTSingleElimDaw48.java:139-196 | the worklist loop, in either direction, stops at the same node as the first accepted entry of level order |
| Traversal.SearchFound | src/cs21120/assignment/solution/BTSingleElimDaw48.java:168-196 | the search finds a node iff some visited node satisfies the predicate, and what it finds is the tree's node at that position |
| Traversal.LevelOrderComplete | src/cs21120/assignment/solution/BTSingleElimDaw48.java:168-196 | every node of the tree is visited, in either direction |
| Traversal.NodeAt | src/cs21120/assignment/solution/BTSingleElimDaw48.java:273-287 | `getNodeAt(i)` finds a node iff 0 ≤ i < size; it is the i-th node of left-to-right level order, and index 0 is the root |
| Traversal.Parent | src/cs21120/assignment/solution/BTSingleElimDaw48.java:295-308 | `getParent` finds a node iff the target is a node of the tree other than the root, and then it is the node one step above the target |
| Traversal.ParentSearch | src/cs21120/assignment/solution/BTSingleElimDaw48.java:295-308 | the breadth-first search with getParent's stopping test stops exactly for a non-root node, at the node one step above it |
| Traversal.EmptyLeaf | src/cs21120/assignment/solution/BTSingleElimDaw48.java:251-264 | `getEmptyLeaf` returns a node iff the tree has an empty leaf; the node is a childless, player-less node of the tree, and no earlier node in right-to-left level order is one |
| Traversal.QueuedPairSiblings | src/cs21120/assignment/solution/BTSingleElimDaw48.java:19-22 | in a full tree, the nodes at level-order positions 2k − 1 and 2k are the left and right child of one node |
| Traversal.KidsPlaced | src/cs21120/assignment/solution/BTSingleElimDaw48.java:168-196 | in a full tree the children of the inner node at level-order position i sit at positions c + 1 and c + 2, where c counts the children enqueued before it; both lie after i |
| Traversal.KidsBeforeEven | src/cs21120/assignment/solution/BTSingleElimDaw48.java:168-196 | in a full tree every such count of enqueued children is even |
| Traversal.LevelOrderShapes | src/cs21120/assignment/solution/BTSingleElimDaw48.java:168-196 | trees of one shape are listed with the same positions, the same subtree shapes and the same enqueue counts |
| Builder.CeilLog2 | src/cs21120/assignment/solution/BTSingleElimDaw48.java:210 | the tree height is the least h with 2^h ≥ n |
| Builder.AppendNode | src/cs21120/assignment/solution/BTSingleElimDaw48.java:119-129 | `appendNode` adds exactly the appended nodes and never gives a player to anyone |
| Builder.AppendNodeKeeps | src/cs21120/assignment/solution/BTSingleElimDaw48.java:119-129 | every existing node stays in place with its label, and a free left slot is filled before a free right one |
| Builder.AppendBalanced | src/cs21120/assignment/solution/BTSingleElimDaw48.java:119-129 | descending into the smaller subtree, ties going right, keeps both subtrees of every node within one node of each other |
| Builder.BalancedPerfect | src/cs21120/assignment/solution/BTSingleElimDaw48.java:210-215 | a balanced tree of 2^k − 1 nodes is perfect with k levels |
| Builder.PerfectEmptyLeaves | src/cs21120/assignment/solution/BTSingleElimDaw48.java:210-215 | the blank skeleton of h levels has 2^(h−1) empty leaves |
| Builder.GrowSkeleton | src/cs21120/assignment/solution/BTSingleElimDaw48.java:210-215 | 2^h − 2 appends to a lone root give a perfect tree of 2^h − 1 nodes with no players |
| Builder.AddPlayers | src/cs21120/assignment/solution/BTSingleElimDaw48.java:94-109 | `addPlayers` grows the tree by exactly two nodes and keeps it full |
| Builder.AddPlayersSite | src/cs21120/assignment/solution/BTSingleElimDaw48.java:94-109 | the two new nodes are leaves holding player1 on the left and player2 on the right, under a node that was childless |
| Builder.AddPlayersKeeps | src/cs21120/assignment/solution/BTSingleElimDaw48.java:94-109 | no existing node moves or changes its player or score |
| Builder.AddPlayersPlayers | src/cs21120/assignment/solution/BTSingleElimDaw48.java:94-109 | the tree's players gain exactly player1 and player2 |
| Builder.FullDescends | src/cs21120/assignment/solution/BTSingleElimDaw48.java:104 | in a full tree the descent never asks the size of an absent child |
| Builder.SeedPairs | src/cs21120/assignment/solution/BTSingleElimDaw48.java:217-222 | the pairing loop adds exactly the first 2n − 2^h players as pairs of leaves under bottom nodes of the skeleton, players 2j and 2j + 1 under the same node, keeps the tree full, and leaves exactly 2^(h−1) − (2n − 2^h)/2 empty leaves, which is the bye count |
| Builder.PairLoop | src/cs21120/assignment/solution/BTSingleElimDaw48.java:220-222 | after the loop the skeleton carries exactly totalPlayers / 2 pairs and holds the first totalPlayers players; for every j below totalPlayers / 2, players 2j and 2j + 1 are the left and right child of one node |
| Builder.SeedPair | src/cs21120/assignment/solution/BTSingleElimDaw48.java:221 | one `addPlayers` call, while some bottom node has no pair, adds one pair and the two players; players i and i + 1 become the left and right child of one node, the pairs placed before stay placed, and the right side never holds more than one pair more than the left |
| Builder.AddPairPlaced | src/cs21120/assignment/solution/BTSingleElimDaw48.java:94-109 | placing players 2n and 2n + 1 with `addPlayers` puts them under one node and keeps every pair placed before where it was |
| Builder.AddPlayersGrown | src/cs21120/assignment/solution/BTSingleElimDaw48.java:94-109 | while some bottom node of the skeleton has no pair, the descent by size reaches one of them and adds exactly one pair |
| Builder.GrownCounts | src/cs21120/assignment/solution/BTSingleElimDaw48.java:208-222 | a skeleton of k levels with j pairs has 2^k − 1 + 2j nodes and 2^(k−1) − j empty leaves, and is full |
| Builder.GrownBlank | src/cs21120/assignment/solution/BTSingleElimDaw48.java:208-222 | in a skeleton with pairs, only leaves hold players |
| Builder.PerfectGrown | src/cs21120/assignment/solution/BTSingleElimDaw48.java:210-215 | the blank perfect skeleton is one with no pairs yet |
| Builder.GetEmptyLeaf | src/cs21120/assignment/solution/BTSingleElimDaw48.java:251-264 | the right-to-left search for an empty leaf returns what `EmptyLeaf` describes |
| Builder.SeedByes | src/cs21120/assignment/solution/BTSingleElimDaw48.java:224-226 | every bye player finds an empty leaf, so the lookup never comes back empty; the shape is kept, each bye uses up exactly one empty leaf, no inner node gains a player, no player already placed moves, and all players end up in the tree |
| Builder.SeedBye | src/cs21120/assignment/solution/BTSingleElimDaw48.java:225 | one bye player goes into an empty leaf: the shape is kept, the player joins the tree, and the empty-leaf count drops by one |
| Builder.QueueMatches | src/cs21120/assignment/solution/BTSingleElimDaw48.java:228-232 | the queue holds totalNodes, totalNodes − 1, …, 1 in that order |
| Builder.BuildTree | src/cs21120/assignment/solution/BTSingleElimDaw48.java:208-233 | for n ≥ 2 players the tree is full with 2n − 1 nodes, holds exactly the given players, has a player at every leaf and at no inner node, pairs players 2j and 2j + 1 for every j below n − 2^(h−1) under one node (h = ⌈log2 n⌉), and the queue counts down from 2n − 2 |
| Manager.SetPlayers | src/cs21120/assignment/solution/BTSingleElimDaw48.java:377-384 | fewer than two names leave the manager unchanged; otherwise the bracket holds exactly the players, each at a leaf, players 2j and 2j + 1 meet in a first-round match for every j below n − 2^(h−1), and the queue is an even count-down of 2(n − 1) positions inside the tree |
| Manager.NextMatch | src/cs21120/assignment/solution/BTSingleElimDaw48.java:340-354 | two positions leave the queue, the right one first; each becomes the current node when it resolves; the match pairs the left node's player with the right node's; otherwise the exception names the right position if that failed, else the left one; the tree is untouched |
| Manager.HasNextMatchPairs | src/cs21120/assignment/solution/BTSingleElimDaw48.java:329-331 | on a built bracket `hasNextMatch` holds iff at least two queued positions are left, and then `nextMatch` finds both nodes |
| Manager.NextMatchScheduled | src/cs21120/assignment/solution/BTSingleElimDaw48.java:329-354 | while `hasNextMatch` holds on a built bracket, `nextMatch` never throws, and it pairs two siblings |
| Manager.SetMatchScore | src/cs21120/assignment/solution/BTSingleElimDaw48.java:363-368 | recording a score keeps the tree's shape, the queue and the current pair |
| Manager.SetMatchScoreEffect | src/cs21120/assignment/solution/BTSingleElimDaw48.java:363-368 | the left node gets score p1, the right one p2, and the parent gets the left player if p1 > p2, else the right player; every other node keeps its player and score |
| Manager.GetPosition | src/cs21120/assignment/solution/BTSingleElimDaw48.java:317-321 | `getPosition(i)` is the player of the i-th node of left-to-right level order, and null outside the tree; position 0 is the root |
| Manager.PositionListed | src/cs21120/assignment/solution/BTSingleElimDaw48.java:317-321 | every node's player can be read through some position |
| Manager.Round | src/cs21120/assignment/solution/BTSingleElimDaw48.java:340-368 | one `nextMatch` followed by `setMatchScore` drops two positions and keeps the bracket scheduled and its shape |
| Manager.Play | src/cs21120/assignment/CompetitionManager.java:63-106 | running `nextMatch` and `setMatchScore` while `hasNextMatch` holds, one score pair per queued pair, empties the queue, so n players play exactly n − 1 matches |
| Manager.BuiltReady | src/cs21120/assignment/solution/BTSingleElimDaw48.java:19-36 | a freshly built bracket is ready: every leaf holds a player and no inner node's children have been played |
| Manager.ReadyAt | src/cs21120/assignment/solution/BTSingleElimDaw48.java:38-41 | on a ready bracket every node from the front of the queue onwards holds a player |
| Manager.ReadyPair | src/cs21120/assignment/solution/BTSingleElimDaw48.java:19-22 | on a ready bracket both players of the match `nextMatch` returns are present |
| Manager.ReadyParent | src/cs21120/assignment/solution/BTSingleElimDaw48.java:38-41 | when the queue front is the left child of an inner node, that node is the parent of the pair `nextMatch` returns |
| Manager.RoundPlayers | src/cs21120/assignment/solution/BTSingleElimDaw48.java:363-368 | a round takes no player away, gives the parent of the pair a player, and brings in no name from outside |
| Manager.RoundReady | src/cs21120/assignment/solution/BTSingleElimDaw48.java:19-22 | a round keeps a ready bracket ready |
| Manager.RoundEntrants | src/cs21120/assignment/solution/BTSingleElimDaw48.java:340-354 | on a ready bracket holding only known names, the match returned pairs two of them |
| Manager.PlayReady | src/cs21120/assignment/CompetitionManager.java:63-106 | played to the end from a ready bracket, every match has two players, both known names, and the bracket stays ready |
| Manager.RunCompetition | src/cs21120/assignment/CompetitionManager.java:59-108 | on n ≥ 2 registered players and at least n − 1 score pairs, the driver loop plays exactly n − 1 matches, each between two registered players, and `getPosition(0)` then names a registered player: the winner of the final, ties going to the right player |
| Manager.PlayRound | src/cs21120/assignment/CompetitionManager.java:63-106 | one turn of the driver loop keeps the bracket ready and its names registered, and records a match between two registered players |
| Manager.FinalRound | src/cs21120/assignment/solution/BTSingleElimDaw48.java:363-368 | with one pair left, the match played is the final: the root receives its winner |
| Manager.ReadyRoot | src/cs21120/assignment/CompetitionManager.java:108 | once the queue is empty, a ready bracket has a player at the root |

## Left out

- The input and output of `CompetitionManager` are left out: reading the
  player file, prompting for scores, rejecting draws and printing the tree.
  Its loop over the manager is `Manager.RunCompetition`, with the scores
  given as a sequence; `Manager.Play` is the same loop as a function. Draws
  are not excluded; the manager gives them to the right player.
- The floating-point `Math.log`, `Math.ceil` and `Math.pow` calls in
  `buildTree` are replaced by exact integer `CeilLog2` and `Pow2`.
  - For large exact powers of two, the floating-point quotient can round
    above the true logarithm.
  - `int` overflow for n above 2^30 is also not modelled.
- The `System.err` message of `setPlayers` is output, and it is left out.
- The interface getters of the node class and `getCompetitionTree` are left
  out. They are plain field reads; the model's fields are public.
- Protocol misuse is a precondition rather than a modelled exception:
  - `nextMatch` on a queue shorter than two, where `poll` returns null and
    unboxing fails;
  - `setMatchScore` without a current pair, or with the root as the left
    node;
  - `setPlayers` with two or more names on a manager that already holds a
    bracket;
  - `addPlayers` on a node with exactly one child, where `size(null)` would
    be called.
- The `AtomicInteger` and `AtomicReference` captures are modelled as plain
  values: the visit index and the search result. Nothing here is concurrent.
- The self-assessment paragraphs of the class comment are left out.

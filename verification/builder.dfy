/** Construction of the bracket: the tree height from the player count, the
    size-balanced skeleton, pair seeding under childless nodes, bye seeding
    into empty leaves found right to left, and the match queue. */
module Builder {
  import opened BracketTree
  import opened Traversal

  function Pow2(k: nat): (r: nat)
    ensures r >= 1
  {
    if k == 0 then 1 else 2 * Pow2(k - 1)
  }

  /** The tree height for `n` players: the least h with 2^h >= n, computed in
      exact integer arithmetic. */
  function CeilLog2(n: nat): (h: nat)
    requires n >= 1
    ensures Pow2(h) >= n
    ensures h > 0 ==> Pow2(h - 1) < n
    decreases n
  {
    if n <= 1 then 0 else 1 + CeilLog2((n + 1) / 2)
  }

  /** appendNode: hangs `node` in the first free child slot of `t`, left before
      right; when both are taken, descends into the child with fewer nodes,
      the right one on a tie. */
  function AppendNode(t: Node, node: Node): (r: Node)
    ensures Size(r) == Size(t) + Size(node)
    ensures Unseeded(t) && Unseeded(node) ==> Unseeded(r)
  {
    if t.left.None? then
      t.(left := Some(node))
    else if t.right.None? then
      t.(right := Some(node))
    else if Size(t.left.value) < Size(t.right.value) then
      t.(left := Some(AppendNode(t.left.value, node)))
    else
      t.(right := Some(AppendNode(t.right.value, node)))
  }

  /** No node of the tree holds a player. */
  ghost predicate Unseeded(t: Node) {
    && t.player.None?
    && (t.left.Some? ==> Unseeded(t.left.value))
    && (t.right.Some? ==> Unseeded(t.right.value))
  }

  /** The descent of addPlayers never meets a node with exactly one child,
      where the program would ask the size of an absent subtree. */
  ghost predicate CanDescend(t: Node) {
    || IsLeaf(t)
    || (&& t.left.Some? && t.right.Some?
        && if Size(t.left.value) < Size(t.right.value)
           then CanDescend(t.left.value) else CanDescend(t.right.value))
  }

  /** addPlayers: descends from `t` into the child with fewer nodes (the
      right one on a tie) until it reaches a childless node, and gives that
      node two new leaves, `p1` on the left and `p2` on the right. */
  function AddPlayers(t: Node, p1: string, p2: string): (r: Node)
    requires CanDescend(t)
    ensures Size(r) == Size(t) + 2
    ensures Full(t) ==> Full(r)
  {
    if t.right.None? && t.left.None? then
      t.(right := Some(Leaf(p2)), left := Some(Leaf(p1)))
    else if Size(t.left.value) < Size(t.right.value) then
      t.(left := Some(AddPlayers(t.left.value, p1, p2)))
    else
      t.(right := Some(AddPlayers(t.right.value, p1, p2)))
  }

  /** At every node the two subtrees differ in size by at most one, an
      absent child counting as size 0. */
  ghost predicate Balanced(t: Node) {
    && -1 <= SizeOf(t.left) - SizeOf(t.right) <= 1
    && (t.left.Some? ==> Balanced(t.left.value))
    && (t.right.Some? ==> Balanced(t.right.value))
  }

  /** `t` is a perfect tree with `k` levels. */
  ghost predicate Perfect(t: Node, k: nat) {
    && k >= 1
    && if k == 1 then IsLeaf(t)
       else t.left.Some? && t.right.Some? && Perfect(t.left.value, k - 1) && Perfect(t.right.value, k - 1)
  }

  /** A childless node holding a player. */
  predicate IsSeededLeaf(t: Node) {
    IsLeaf(t) && t.player.Some?
  }

  /** `t` is the skeleton of `k` levels, without players on it, where some
      bottom nodes have been given a pair of seeded leaves; below every inner
      skeleton node the right side holds as many pairs as the left or one
      more. */
  ghost predicate Grown(t: Node, k: nat)
    decreases k
  {
    && k >= 1 && t.player.None?
    && if k == 1 then
         || IsLeaf(t)
         || (t.left.Some? && t.right.Some? && IsSeededLeaf(t.left.value) && IsSeededLeaf(t.right.value))
       else
         && t.left.Some? && t.right.Some?
         && Grown(t.left.value, k - 1) && Grown(t.right.value, k - 1)
         && Pairs(t.left.value, k - 1) <= Pairs(t.right.value, k - 1) <= Pairs(t.left.value, k - 1) + 1
  }

  /** How many bottom nodes of the `k`-level skeleton `t` carry a pair. */
  ghost function Pairs(t: Node, k: nat): nat
    decreases k
  {
    if k <= 1 then
      (if IsLeaf(t) then 0 else 1)
    else
      var l := if t.left.Some? then Pairs(t.left.value, k - 1) else 0;
      var r := if t.right.Some? then Pairs(t.right.value, k - 1) else 0;
      l + r
  }

  /** Players `a` and `b` are the left and right child of the node at `q`, so
      they meet in that node's match. */
  ghost predicate PairedAt(t: Node, q: Path, a: string, b: string) {
    PlayerAt(t, q + [L]) == Some(a) && PlayerAt(t, q + [R]) == Some(b)
  }

  /** Players `2j` and `2j + 1` of the list meet in a first-round match. */
  ghost predicate PairPlaced(t: Node, players: seq<string>, j: int)
    requires 0 <= j && 2 * j + 1 < |players|
  {
    var a, b := players[2 * j], players[2 * j + 1];
    exists q :: PairedAt(t, q, a, b)
  }

  /** The first `n` consecutive pairs of the list each meet in a match. */
  ghost predicate PairsPlaced(t: Node, players: seq<string>, n: int)
    requires 0 <= n && 2 * n <= |players|
  {
    forall j :: 0 <= j < n ==> PairPlaced(t, players, j)
  }

  /** The queue holds |q|, |q|-1, ..., 1 in that order. */
  ghost predicate IsCountdown(q: seq<int>) {
    forall x :: 0 <= x < |q| ==> q[x] == |q| - x
  }

  /** getEmptyLeaf: a right-to-left breadth-first search that stops at the
      first childless node without a player. */
  method GetEmptyLeaf(root: Node) returns (leaf: Option<Entry>)
    ensures leaf == EmptyLeaf(root)
  {
    leaf := Bfs(root, (j: nat, e: Entry) => IsEmptyLeaf(e.node), true);
  }

  /** buildTree: grows 2^h - 2 blank nodes onto the root, where h = ceil(log2 n),
      pairs the first 2n - 2^h players under childless nodes, drops each of the
      remaining 2^h - n players into an empty leaf, and queues the positions
      2n - 2 down to 1. Each phase is one loop of the program, written here as
      its own method. */
  method BuildTree(players: seq<string>) returns (root: Node, matches: seq<int>)
    requires |players| >= 2
    ensures Size(root) == 2 * |players| - 1
    ensures Full(root)
    ensures Players(root) == multiset(players)
    ensures Seeded(root)
    ensures PairsPlaced(root, players, |players| - Pow2(CeilLog2(|players|) - 1))
    ensures |matches| == 2 * |players| - 2
    ensures IsCountdown(matches)
  {
    var numPlayers := |players|;
    var treeHeight := CeilLog2(numPlayers);
    assert Pow2(0) == 1;
    root := GrowSkeleton(treeHeight);
    var extraPlayers := Pow2(treeHeight) - numPlayers;
    var totalPlayers := numPlayers - extraPlayers;
    root := SeedPairs(root, treeHeight, players, totalPlayers);
    GrownBlank(root, treeHeight);
    assert Pow2(treeHeight) == 2 * Pow2(treeHeight - 1);
    ghost var paired := root;
    root := SeedByes(root, players, totalPlayers);
    PairsKept(paired, root, players, totalPlayers / 2);
    SeededLeaves(root);
    FirstBagAll(players);
    var totalNodes := Pow2(treeHeight + 1) - 2 - extraPlayers * 2;
    matches := QueueMatches(totalNodes);
  }

  /** The first loop of buildTree: 2^h - 2 appends of a blank node to a lone
      root. The result is the perfect tree of h levels with no players. */
  method GrowSkeleton(treeHeight: nat) returns (root: Node)
    requires treeHeight >= 1
    ensures Size(root) == Pow2(treeHeight) - 1
    ensures Perfect(root, treeHeight)
    ensures Unseeded(root)
  {
    var nodesToAdd := Pow2(treeHeight) - 2;
    root := Blank;
    while nodesToAdd > 0
      invariant 0 <= nodesToAdd
      invariant Size(root) + nodesToAdd == Pow2(treeHeight) - 1
      invariant Balanced(root)
      invariant Unseeded(root)
    {
      AppendBalanced(root);
      root := AppendNode(root, Blank);
      nodesToAdd := nodesToAdd - 1;
    }
    BalancedPerfect(root, treeHeight);
  }

  /** The second loop of buildTree: players 0 and 1, 2 and 3, ... up to
      `totalPlayers` are added as pairs. Each pair lands under a different
      bottom node of the skeleton, so exactly one empty leaf is used up per
      pair. */
  method SeedPairs(skeleton: Node, treeHeight: nat, players: seq<string>, totalPlayers: int) returns (root: Node)
    requires treeHeight >= 1
    requires Perfect(skeleton, treeHeight) && Unseeded(skeleton)
    requires 0 <= totalPlayers <= |players| && totalPlayers % 2 == 0
    requires totalPlayers <= Pow2(treeHeight)
    ensures Size(root) == Size(skeleton) + totalPlayers
    ensures Grown(root, treeHeight) && Full(root)
    ensures Players(root) == FirstBag(players, totalPlayers)
    ensures PairsPlaced(root, players, totalPlayers / 2)
    ensures EmptyLeafCount(root) + totalPlayers / 2 == Pow2(treeHeight - 1)
  {
    PerfectGrown(skeleton, treeHeight);
    UnseededPlayers(skeleton);
    assert Pow2(treeHeight) == 2 * Pow2(treeHeight - 1);
    GrownCounts(skeleton, treeHeight);
    root := PairLoop(skeleton, treeHeight, players, totalPlayers);
    GrownCounts(root, treeHeight);
  }

  /** The loop itself, from the blank skeleton. */
  method PairLoop(skeleton: Node, treeHeight: nat, players: seq<string>, totalPlayers: int) returns (root: Node)
    requires Grown(skeleton, treeHeight) && Pairs(skeleton, treeHeight) == 0
    requires Players(skeleton) == multiset{}
    requires 0 <= totalPlayers <= |players| && totalPlayers % 2 == 0
    requires totalPlayers / 2 <= Pow2(treeHeight - 1)
    ensures Grown(root, treeHeight) && Pairs(root, treeHeight) == totalPlayers / 2
    ensures Players(root) == FirstBag(players, totalPlayers)
    ensures PairsPlaced(root, players, totalPlayers / 2)
  {
    root := skeleton;
    var i := 0;
    ghost var pairs := 0;
    ghost var half := totalPlayers / 2;
    assert totalPlayers == 2 * half;
    assert Players(root) == FirstBag(players, 0);
    while i + 2 <= totalPlayers
      invariant 0 <= pairs <= half && i == 2 * pairs
      invariant Grown(root, treeHeight) && Pairs(root, treeHeight) == pairs
      invariant Players(root) == FirstBag(players, i)
      invariant PairsPlaced(root, players, pairs)
    {
      root := SeedPair(root, treeHeight, players, i, pairs);
      i := i + 2;
      pairs := pairs + 1;
    }
    assert pairs == half;
    assert PairsPlaced(root, players, half);
  }

  /** One turn of the pairing loop: players `i` and `i + 1` go below the
      first childless node the descent reaches, which is a bottom node of the
      skeleton still without a pair; the pairs placed before stay where they
      were. */
  method SeedPair(t: Node, k: nat, players: seq<string>, i: nat, ghost n: nat) returns (r: Node)
    requires Grown(t, k) && Pairs(t, k) < Pow2(k - 1)
    requires i + 2 <= |players|
    requires Players(t) == FirstBag(players, i)
    requires i == 2 * n && PairsPlaced(t, players, n)
    ensures Size(r) == Size(t) + 2
    ensures Grown(r, k) && Pairs(r, k) == Pairs(t, k) + 1
    ensures Players(r) == FirstBag(players, i + 2)
    ensures PairsPlaced(r, players, n + 1)
  {
    AddPlayersGrown(t, k, players[i], players[i + 1]);
    PairStep(t, players, i);
    AddPairPlaced(t, players, i, n);
    r := AddPlayers(t, players[i], players[i + 1]);
  }

  /** The third loop of buildTree: each remaining player becomes the player of
      the empty leaf getEmptyLeaf returns. There are at least as many empty
      leaves as remaining players, so the search never comes back empty. */
  method SeedByes(seeded: Node, players: seq<string>, from: int) returns (root: Node)
    requires 0 <= from <= |players|
    requires Full(seeded)
    requires Players(seeded) == FirstBag(players, from)
    requires EmptyLeafCount(seeded) >= |players| - from
    ensures ShapeOf(root) == ShapeOf(seeded)
    ensures Size(root) == Size(seeded)
    ensures Full(root)
    ensures Players(root) == FirstBag(players, |players|)
    ensures EmptyLeafCount(root) == EmptyLeafCount(seeded) - (|players| - from)
    ensures InnerBlank(seeded) ==> InnerBlank(root)
    ensures KeepsPlayers(seeded, root)
  {
    root := seeded;
    var i := from;
    while i < |players|
      invariant from <= i <= |players|
      invariant ByesSoFar(seeded, root, players, from, i)
    {
      root := SeedBye(seeded, root, players, from, i);
      i := i + 1;
    }
    ShapeSize(root, seeded);
  }

  /** What the bye loop has done after placing players `from` to `i - 1`. */
  ghost predicate ByesSoFar(seeded: Node, root: Node, players: seq<string>, from: int, i: int)
    requires 0 <= from <= i <= |players|
  {
    && ShapeOf(root) == ShapeOf(seeded)
    && Players(root) == FirstBag(players, i)
    && EmptyLeafCount(root) + (i - from) == EmptyLeafCount(seeded)
    && (InnerBlank(seeded) ==> InnerBlank(root))
    && KeepsPlayers(seeded, root)
  }

  /** One turn of the bye loop: player `i` goes into the empty leaf the
      right-to-left search finds. An empty leaf is left, so the search
      succeeds. */
  method SeedBye(seeded: Node, t: Node, players: seq<string>, from: int, i: int) returns (r: Node)
    requires 0 <= from <= i < |players|
    requires EmptyLeafCount(seeded) >= |players| - from
    requires ByesSoFar(seeded, t, players, from, i)
    ensures ByesSoFar(seeded, r, players, from, i + 1)
  {
    var leaf := GetEmptyLeaf(t);
    var path := leaf.value.path;
    r := SetPlayer(t, path, Some(players[i]));
    RelabelPlayers(t, path, Some(players[i]), ScoreAt(t, path));
    RelabelEmptyLeaf(t, path, players[i], ScoreAt(t, path));
    if InnerBlank(t) {
      RelabelInnerBlank(t, path, Some(players[i]), ScoreAt(t, path));
    }
    RelabelKeeps(seeded, t, path, Some(players[i]), ScoreAt(t, path));
  }

  /** The last loop of buildTree: positions totalNodes down to 1 are queued. */
  method QueueMatches(totalNodes: int) returns (matches: seq<int>)
    ensures |matches| == if totalNodes > 0 then totalNodes else 0
    ensures IsCountdown(matches)
  {
    matches := [];
    var k := totalNodes;
    while k > 0
      invariant k == totalNodes || 0 <= k < totalNodes
      invariant |matches| == totalNodes - k
      invariant forall x :: 0 <= x < |matches| ==> matches[x] == totalNodes - x
    {
      matches := matches + [k];
      k := k - 1;
    }
  }

  // ---------------------------------------------------------------------
  // Lemmas

  /** Placing players `i = 2n` and `i + 1` keeps the earlier pairs where they
      were and puts the new pair under one node. */
  lemma AddPairPlaced(t: Node, players: seq<string>, i: nat, n: nat)
    requires CanDescend(t)
    requires i == 2 * n && i + 2 <= |players|
    requires PairsPlaced(t, players, n)
    ensures PairsPlaced(AddPlayers(t, players[i], players[i + 1]), players, n + 1)
  {
    var r := AddPlayers(t, players[i], players[i + 1]);
    AddPlayersKeeps(t, players[i], players[i + 1]);
    EmbedsKeeps(t, r);
    PairsKept(t, r, players, n);
    var q := AddPlayersSite(t, players[i], players[i + 1]);
    PairWitness(r, players, n, q);
  }

  lemma PairWitness(t: Node, players: seq<string>, j: int, q: Path)
    requires 0 <= j && 2 * j + 1 < |players|
    requires PairedAt(t, q, players[2 * j], players[2 * j + 1])
    ensures PairPlaced(t, players, j)
  {
  }

  /** Pairs stay placed in a tree that keeps every player where it was. */
  lemma PairsKept(a: Node, b: Node, players: seq<string>, n: int)
    requires 0 <= n && 2 * n <= |players|
    requires KeepsPlayers(a, b) && PairsPlaced(a, players, n)
    ensures PairsPlaced(b, players, n)
  {
    forall j | 0 <= j < n
      ensures PairPlaced(b, players, j)
    {
      var x, y := players[2 * j], players[2 * j + 1];
      assert PairPlaced(a, players, j);
      var q :| PairedAt(a, q, x, y);
      assert PairedAt(b, q, x, y);
    }
  }

  /** One turn of the pairing loop, on a tree holding the first `i`
      players: afterwards it holds the first `i + 2`. */
  lemma PairStep(t: Node, players: seq<string>, i: nat)
    requires CanDescend(t) && i + 2 <= |players|
    requires Players(t) == FirstBag(players, i)
    ensures Players(AddPlayers(t, players[i], players[i + 1])) == FirstBag(players, i + 2)
  {
    var a, b := players[i], players[i + 1];
    AddPlayersPlayers(t, a, b);
    var before := FirstBag(players, i);
    var after := FirstBag(players, i + 2);
    assert FirstBag(players, i + 1) == before + multiset{a};
    assert after == FirstBag(players, i + 1) + multiset{b};
    BagPair(Players(AddPlayers(t, a, b)), before, after, a, b);
  }

  /** The first `i` players, as a multiset. */
  ghost function FirstBag(s: seq<string>, i: nat): multiset<string>
    requires i <= |s|
  {
    if i == 0 then multiset{} else FirstBag(s, i - 1) + multiset{s[i - 1]}
  }

  lemma {:induction false} FirstBagPrefix(s: seq<string>, i: nat)
    requires i <= |s|
    ensures FirstBag(s, i) == multiset(s[..i])
  {
    if i > 0 {
      FirstBagPrefix(s, i - 1);
      assert s[..i] == s[..i - 1] + [s[i - 1]];
    }
  }

  lemma FirstBagAll(s: seq<string>)
    ensures FirstBag(s, |s|) == multiset(s)
  {
    FirstBagPrefix(s, |s|);
    assert s[..|s|] == s;
  }

  /** Appending a blank node keeps the tree size-balanced. */
  lemma {:induction false} AppendBalanced(t: Node)
    requires Balanced(t)
    ensures Balanced(AppendNode(t, Blank))
    decreases t
  {
    if t.left.Some? && t.right.Some? {
      if Size(t.left.value) < Size(t.right.value) {
        AppendBalanced(t.left.value);
      } else {
        AppendBalanced(t.right.value);
      }
    }
  }

  /** A size-balanced tree of 2^k - 1 nodes is perfect with k levels. */
  lemma {:induction false} BalancedPerfect(t: Node, k: nat)
    requires Balanced(t)
    requires k >= 1 && Size(t) == Pow2(k) - 1
    ensures Perfect(t, k)
    decreases k
  {
    if k > 1 {
      assert Pow2(k) == 2 * Pow2(k - 1);
      assert SizeOf(t.left) == Pow2(k - 1) - 1 && SizeOf(t.right) == Pow2(k - 1) - 1;
      BalancedPerfect(t.left.value, k - 1);
      BalancedPerfect(t.right.value, k - 1);
    }
  }

  lemma {:induction false} UnseededPlayers(t: Node)
    requires Unseeded(t)
    ensures Players(t) == multiset{}
    decreases t
  {
    if t.left.Some? { UnseededPlayers(t.left.value); }
    if t.right.Some? { UnseededPlayers(t.right.value); }
  }

  /** A perfect tree of k levels with no players has 2^(k-1) empty leaves. */
  lemma {:induction false} PerfectEmptyLeaves(t: Node, k: nat)
    requires Perfect(t, k)
    requires Unseeded(t)
    ensures EmptyLeafCount(t) == Pow2(k - 1)
    decreases k
  {
    if k > 1 {
      PerfectEmptyLeaves(t.left.value, k - 1);
      PerfectEmptyLeaves(t.right.value, k - 1);
    }
  }

  lemma {:induction false} FullDescends(t: Node)
    requires Full(t)
    ensures CanDescend(t)
    decreases t
  {
    if !IsLeaf(t) {
      FullDescends(t.left.value);
      FullDescends(t.right.value);
    }
  }

  /** addPlayers adds exactly `p1` and `p2` to the players of the tree. */
  lemma {:induction false} AddPlayersPlayers(t: Node, p1: string, p2: string)
    requires CanDescend(t)
    ensures Players(AddPlayers(t, p1, p2)) == Players(t) + multiset{p1, p2}
    decreases t
  {
    var r := AddPlayers(t, p1, p2);
    if IsLeaf(t) {
      assert Players(r) == PlayerBag(t.player) + multiset{p1} + multiset{p2};
    } else {
      var d := if Size(t.left.value) < Size(t.right.value) then L else R;
      var c := Child(t, d).value;
      AddPlayersPlayers(c, p1, p2);
      var c' := AddPlayers(c, p1, p2);
      assert r == WithChild(t, d, c');
      WithChildPlayers(t, d, c');
      BagCancel(Players(r), Players(c), Players(t), Players(c'), multiset{p1, p2});
    }
  }

  /** The blank skeleton carries no pairs yet. */
  lemma {:induction false} PerfectGrown(t: Node, k: nat)
    requires Perfect(t, k) && Unseeded(t)
    ensures Grown(t, k) && Pairs(t, k) == 0
    decreases k
  {
    if k > 1 {
      PerfectGrown(t.left.value, k - 1);
      PerfectGrown(t.right.value, k - 1);
    }
  }

  /** A grown skeleton of `k` levels with `c` pairs: 2^k - 1 + 2c nodes, full,
      and 2^(k-1) - c empty leaves. */
  lemma {:induction false} GrownCounts(t: Node, k: nat)
    requires Grown(t, k)
    ensures Size(t) == Pow2(k) - 1 + 2 * Pairs(t, k)
    ensures EmptyLeafCount(t) + Pairs(t, k) == Pow2(k - 1)
    ensures Full(t)
    decreases k
  {
    GrownSize(t, k);
    GrownEmptyLeaves(t, k);
  }

  /** The node count of a skeleton with pairs. */
  lemma {:induction false} GrownSize(t: Node, k: nat)
    requires Grown(t, k)
    ensures Size(t) == Pow2(k) - 1 + 2 * Pairs(t, k)
    decreases k
  {
    if k > 1 {
      GrownSize(t.left.value, k - 1);
      GrownSize(t.right.value, k - 1);
      assert Pow2(k) == 2 * Pow2(k - 1);
    } else if !IsLeaf(t) {
      assert Size(t.left.value) == 1 && Size(t.right.value) == 1;
    }
  }

  /** Each pair uses up one empty bottom node of the skeleton. */
  lemma {:induction false} GrownEmptyLeaves(t: Node, k: nat)
    requires Grown(t, k)
    ensures EmptyLeafCount(t) + Pairs(t, k) == Pow2(k - 1)
    ensures Full(t)
    decreases k
  {
    if k > 1 {
      GrownEmptyLeaves(t.left.value, k - 1);
      GrownEmptyLeaves(t.right.value, k - 1);
      assert Pow2(k - 1) == 2 * Pow2(k - 2);
    }
  }

  /** Only the leaves of a grown skeleton hold players. */
  lemma {:induction false} GrownBlank(t: Node, k: nat)
    requires Grown(t, k)
    ensures InnerBlank(t)
    decreases k
  {
    if k > 1 {
      GrownBlank(t.left.value, k - 1);
      GrownBlank(t.right.value, k - 1);
    }
  }

  /** While some bottom node has no pair, addPlayers reaches one of them: the
      smaller side is the one with fewer pairs, and on a tie the right side
      has room because the sides are balanced. */
  lemma {:induction false} AddPlayersGrown(t: Node, k: nat, p1: string, p2: string)
    requires Grown(t, k) && Pairs(t, k) < Pow2(k - 1)
    ensures CanDescend(t)
    ensures Grown(AddPlayers(t, p1, p2), k)
    ensures Pairs(AddPlayers(t, p1, p2), k) == Pairs(t, k) + 1
    decreases k
  {
    if k > 1 {
      var l, r := t.left.value, t.right.value;
      GrownSize(l, k - 1);
      GrownSize(r, k - 1);
      assert Pow2(k - 1) == 2 * Pow2(k - 2);
      if Pairs(l, k - 1) < Pairs(r, k - 1) {
        assert Size(l) < Size(r);
        AddPlayersGrown(l, k - 1, p1, p2);
        GrowLeft(t, k, p1, p2);
      } else {
        assert Size(l) == Size(r);
        AddPlayersGrown(r, k - 1, p1, p2);
        GrowRight(t, k, p1, p2);
      }
    }
  }

  /** The step of AddPlayersGrown that descends to the left. */
  lemma GrowLeft(t: Node, k: nat, p1: string, p2: string)
    requires k > 1 && Grown(t, k)
    requires Size(t.left.value) < Size(t.right.value)
    requires Pairs(t.left.value, k - 1) < Pairs(t.right.value, k - 1)
    requires CanDescend(t.left.value)
    requires Grown(AddPlayers(t.left.value, p1, p2), k - 1)
    requires Pairs(AddPlayers(t.left.value, p1, p2), k - 1) == Pairs(t.left.value, k - 1) + 1
    ensures CanDescend(t)
    ensures Grown(AddPlayers(t, p1, p2), k)
    ensures Pairs(AddPlayers(t, p1, p2), k) == Pairs(t, k) + 1
  {
    assert AddPlayers(t, p1, p2) == t.(left := Some(AddPlayers(t.left.value, p1, p2)));
  }

  /** The step of AddPlayersGrown that descends to the right. */
  lemma GrowRight(t: Node, k: nat, p1: string, p2: string)
    requires k > 1 && Grown(t, k)
    requires Size(t.left.value) == Size(t.right.value)
    requires Pairs(t.left.value, k - 1) == Pairs(t.right.value, k - 1)
    requires CanDescend(t.right.value)
    requires Grown(AddPlayers(t.right.value, p1, p2), k - 1)
    requires Pairs(AddPlayers(t.right.value, p1, p2), k - 1) == Pairs(t.right.value, k - 1) + 1
    ensures CanDescend(t)
    ensures Grown(AddPlayers(t, p1, p2), k)
    ensures Pairs(AddPlayers(t, p1, p2), k) == Pairs(t, k) + 1
  {
    assert AddPlayers(t, p1, p2) == t.(right := Some(AddPlayers(t.right.value, p1, p2)));
  }

  /** addPlayers keeps every existing node at its position with its player and
      score. */
  lemma {:induction false} AddPlayersKeeps(t: Node, p1: string, p2: string)
    requires CanDescend(t)
    ensures Embeds(t, AddPlayers(t, p1, p2))
    decreases t
  {
    if IsLeaf(t) {
    } else if Size(t.left.value) < Size(t.right.value) {
      AddPlayersKeeps(t.left.value, p1, p2);
      EmbedsRefl(t.right.value);
    } else {
      AddPlayersKeeps(t.right.value, p1, p2);
      EmbedsRefl(t.left.value);
    }
  }

  /** addPlayers hangs `p1` and `p2` as the left and right leaf under a node
      that was childless. */
  lemma {:induction false} AddPlayersSite(t: Node, p1: string, p2: string) returns (q: Path)
    requires CanDescend(t)
    ensures At(t, q).Some? && IsLeaf(At(t, q).value)
    ensures At(AddPlayers(t, p1, p2), q + [L]) == Some(Leaf(p1))
    ensures At(AddPlayers(t, p1, p2), q + [R]) == Some(Leaf(p2))
    decreases t
  {
    var r := AddPlayers(t, p1, p2);
    if IsLeaf(t) {
      q := [];
      AtSnoc(r, [], L);
      AtSnoc(r, [], R);
    } else {
      var d := if Size(t.left.value) < Size(t.right.value) then L else R;
      var c := Child(t, d).value;
      var q' := AddPlayersSite(c, p1, p2);
      assert Child(r, d) == Some(AddPlayers(c, p1, p2));
      q := [d] + q';
      AtCons(t, d, q');
      AtCons(r, d, q' + [L]);
      AtCons(r, d, q' + [R]);
      assert [d] + (q' + [L]) == q + [L];
      assert [d] + (q' + [R]) == q + [R];
    }
  }

  /** appendNode keeps every existing node at its position with its player and
      score, and fills a free slot: left before right. */
  lemma {:induction false} AppendNodeKeeps(t: Node, node: Node)
    ensures Embeds(t, AppendNode(t, node))
    ensures t.left.None? ==> AppendNode(t, node).left == Some(node)
    ensures t.left.Some? && t.right.None? ==> AppendNode(t, node).right == Some(node)
    decreases t
  {
    if t.left.None? {
      EmbedsRefl(t);
      if t.right.Some? { EmbedsRefl(t.right.value); }
    } else if t.right.None? {
      EmbedsRefl(t.left.value);
    } else if Size(t.left.value) < Size(t.right.value) {
      AppendNodeKeeps(t.left.value, node);
      EmbedsRefl(t.right.value);
    } else {
      AppendNodeKeeps(t.right.value, node);
      EmbedsRefl(t.left.value);
    }
  }
}

/** The bracket tree of the single-elimination manager: immutable nodes, node
    positions as paths from the root, the size measure the builder balances
    with, and in-place relabelling (score set, winner promoted) as a pure
    update that keeps the tree's shape. */
module BracketTree {

  datatype Option<T> = None | Some(value: T)

  /** One step from a node to a child. */
  datatype Dir = L | R

  /** A node's position: the directions from the root to it. The program tells
      nodes apart by reference; in a tree without sharing, a node and its
      position determine each other. */
  type Path = seq<Dir>

  /** One bracket position: at most two children, an optional player (absent
      until seeded or promoted) and a score (0 until its match is settled). */
  datatype Node = Node(left: Option<Node>, right: Option<Node>, player: Option<string>, score: int)

  /** The shape of a tree: its nodes with players and scores erased. */
  datatype Shape = Shape(left: Option<Shape>, right: Option<Shape>)

  /** A freshly allocated node: no children, no player, score 0. */
  const Blank: Node := Node(None, None, None, 0)

  /** A fresh node holding a player. */
  function Leaf(p: string): Node {
    Node(None, None, Some(p), 0)
  }

  predicate IsLeaf(t: Node) {
    t.left.None? && t.right.None?
  }

  /** A childless node that has not been given a player. */
  predicate IsEmptyLeaf(t: Node) {
    IsLeaf(t) && t.player.None?
  }

  function Child(t: Node, d: Dir): Option<Node> {
    if d == L then t.left else t.right
  }

  function WithChild(t: Node, d: Dir, c: Node): Node {
    if d == L then t.(left := Some(c)) else t.(right := Some(c))
  }

  /** The number of nodes in the tree rooted at `t`: the node itself plus the
      sizes of the children it has. */
  function Size(t: Node): (r: nat)
    ensures r >= 1
    ensures r == 1 <==> IsLeaf(t)
  {
    1 + (if t.right.Some? then Size(t.right.value) else 0)
      + (if t.left.Some? then Size(t.left.value) else 0)
  }

  /** Size of an optional subtree; an absent child counts as 0. */
  function SizeOf(o: Option<Node>): nat {
    if o.Some? then Size(o.value) else 0
  }

  function ShapeOf(t: Node): Shape {
    Shape(if t.left.Some? then Some(ShapeOf(t.left.value)) else None,
          if t.right.Some? then Some(ShapeOf(t.right.value)) else None)
  }

  /** Every node has either no children or both. */
  predicate Full(t: Node) {
    && (t.left.Some? <==> t.right.Some?)
    && (t.left.Some? ==> Full(t.left.value))
    && (t.right.Some? ==> Full(t.right.value))
  }

  function PlayerBag(p: Option<string>): multiset<string> {
    if p.Some? then multiset{p.value} else multiset{}
  }

  /** The players held anywhere in the tree, with multiplicity. */
  function Players(t: Node): multiset<string> {
    PlayerBag(t.player)
      + (if t.left.Some? then Players(t.left.value) else multiset{})
      + (if t.right.Some? then Players(t.right.value) else multiset{})
  }

  /** How many childless, player-less nodes the tree has. */
  function EmptyLeafCount(t: Node): nat {
    (if IsEmptyLeaf(t) then 1 else 0)
      + (if t.left.Some? then EmptyLeafCount(t.left.value) else 0)
      + (if t.right.Some? then EmptyLeafCount(t.right.value) else 0)
  }

  /** No node with children holds a player. */
  ghost predicate InnerBlank(t: Node) {
    && (!IsLeaf(t) ==> t.player.None?)
    && (t.left.Some? ==> InnerBlank(t.left.value))
    && (t.right.Some? ==> InnerBlank(t.right.value))
  }

  /** The players sit exactly at the leaves: a node holds a player iff it has
      no children. */
  ghost predicate Seeded(t: Node) {
    && (IsLeaf(t) <==> t.player.Some?)
    && (t.left.Some? ==> Seeded(t.left.value))
    && (t.right.Some? ==> Seeded(t.right.value))
  }

  /** The subtree at position `p`, or None when `p` leaves the tree. */
  function At(t: Node, p: Path): Option<Node>
    decreases |p|
  {
    if |p| == 0 then Some(t)
    else match Child(t, p[0])
      case None => None
      case Some(c) => At(c, p[1..])
  }

  /** Player and score of an optional node. */
  function Label(o: Option<Node>): Option<(Option<string>, int)> {
    if o.Some? then Some((o.value.player, o.value.score)) else None
  }

  /** The player at position `p`; None when the node has none or is absent. */
  function PlayerAt(t: Node, p: Path): Option<string> {
    var n := At(t, p);
    if n.Some? then n.value.player else None
  }

  function ScoreAt(t: Node, p: Path): int {
    var n := At(t, p);
    if n.Some? then n.value.score else 0
  }

  /** Every node of `a` is still present in `b`, at the same position, with the
      same player and score; `b` may have more nodes. */
  ghost predicate Embeds(a: Node, b: Node) {
    && a.player == b.player && a.score == b.score
    && (a.left.Some? ==> b.left.Some? && Embeds(a.left.value, b.left.value))
    && (a.right.Some? ==> b.right.Some? && Embeds(a.right.value, b.right.value))
  }

  /** `a` and `b` are the left and right child of one node. */
  predicate Siblings(a: Path, b: Path) {
    && |a| > 0 && |b| == |a|
    && a[..|a| - 1] == b[..|b| - 1]
    && a[|a| - 1] == L && b[|b| - 1] == R
  }

  /** Sets the player and score of the node at `p`; children are kept, and an
      absent position leaves the tree as it was. This is the in-place field
      assignment of the program on a node addressed by position. */
  function Relabel(t: Node, p: Path, player: Option<string>, score: int): (r: Node)
    ensures ShapeOf(r) == ShapeOf(t)
    ensures At(t, p).Some? ==> At(r, p).Some? && At(r, p).value.player == player && At(r, p).value.score == score
    decreases |p|
  {
    if |p| == 0 then t.(player := player, score := score)
    else match Child(t, p[0])
      case None => t
      case Some(c) => WithChild(t, p[0], Relabel(c, p[1..], player, score))
  }

  /** Sets only the score at `p`. */
  function SetScore(t: Node, p: Path, score: int): Node {
    Relabel(t, p, PlayerAt(t, p), score)
  }

  /** Sets only the player at `p`. */
  function SetPlayer(t: Node, p: Path, player: Option<string>): Node {
    Relabel(t, p, player, ScoreAt(t, p))
  }

  // ---------------------------------------------------------------------
  // Positions

  lemma {:induction false} AtSnoc(t: Node, p: Path, d: Dir)
    ensures At(t, p + [d]) == (if At(t, p).Some? then Child(At(t, p).value, d) else None)
    decreases |p|
  {
    if |p| == 0 {
      assert p + [d] == [d];
      assert [d][1..] == [];
    } else {
      assert (p + [d])[0] == p[0];
      assert (p + [d])[1..] == p[1..] + [d];
      match Child(t, p[0]) {
        case None =>
        case Some(c) => AtSnoc(c, p[1..], d);
      }
    }
  }

  lemma {:induction false} AtCons(t: Node, d: Dir, p: Path)
    ensures At(t, [d] + p) == (if Child(t, d).Some? then At(Child(t, d).value, p) else None)
  {
    assert ([d] + p)[0] == d;
    assert ([d] + p)[1..] == p;
  }

  /** A position's prefix is a position too. */
  lemma AtPrefix(t: Node, p: Path)
    requires |p| > 0
    requires At(t, p).Some?
    ensures At(t, p[..|p| - 1]).Some?
    ensures Child(At(t, p[..|p| - 1]).value, p[|p| - 1]) == At(t, p)
  {
    assert p == p[..|p| - 1] + [p[|p| - 1]];
    AtSnoc(t, p[..|p| - 1], p[|p| - 1]);
  }

  /** Trees of the same shape have the same positions. */
  lemma {:induction false} ShapeAt(a: Node, b: Node, p: Path)
    requires ShapeOf(a) == ShapeOf(b)
    ensures At(a, p).Some? <==> At(b, p).Some?
    ensures At(a, p).Some? ==> ShapeOf(At(a, p).value) == ShapeOf(At(b, p).value)
    decreases |p|
  {
    if |p| > 0 {
      assert ShapeOf(a).left == ShapeOf(b).left && ShapeOf(a).right == ShapeOf(b).right;
      if Child(a, p[0]).Some? {
        ShapeAt(Child(a, p[0]).value, Child(b, p[0]).value, p[1..]);
      }
    }
  }

  lemma {:induction false} ShapeSize(a: Node, b: Node)
    requires ShapeOf(a) == ShapeOf(b)
    ensures Size(a) == Size(b)
    ensures Full(a) <==> Full(b)
    decreases a
  {
    assert ShapeOf(a).left == ShapeOf(b).left && ShapeOf(a).right == ShapeOf(b).right;
    if a.left.Some? { ShapeSize(a.left.value, b.left.value); }
    if a.right.Some? { ShapeSize(a.right.value, b.right.value); }
  }

  /** A subtree of a full tree is full. */
  lemma {:induction false} FullAt(t: Node, p: Path)
    requires Full(t)
    requires At(t, p).Some?
    ensures Full(At(t, p).value)
    decreases |p|
  {
    if |p| > 0 {
      FullAt(Child(t, p[0]).value, p[1..]);
    }
  }

  lemma {:induction false} EmbedsRefl(t: Node)
    ensures Embeds(t, t)
    decreases t
  {
    if t.left.Some? { EmbedsRefl(t.left.value); }
    if t.right.Some? { EmbedsRefl(t.right.value); }
  }

  /** Embedding, read position by position: every node of `a` is found in `b`
      at the same position with the same player and score. */
  lemma {:induction false} EmbedsAt(a: Node, b: Node, p: Path)
    requires Embeds(a, b)
    requires At(a, p).Some?
    ensures At(b, p).Some? && Label(At(b, p)) == Label(At(a, p))
    decreases |p|
  {
    if |p| > 0 {
      EmbedsAt(Child(a, p[0]).value, Child(b, p[0]).value, p[1..]);
    }
  }

  /** Every player placed in `a` is at the same position in `b`. */
  ghost predicate KeepsPlayers(a: Node, b: Node) {
    forall q :: PlayerAt(a, q).Some? ==> PlayerAt(b, q) == PlayerAt(a, q)
  }

  lemma EmbedsKeeps(a: Node, b: Node)
    requires Embeds(a, b)
    ensures KeepsPlayers(a, b)
  {
    forall q | PlayerAt(a, q).Some?
      ensures PlayerAt(b, q) == PlayerAt(a, q)
    {
      EmbedsAt(a, b, q);
    }
  }

  // ---------------------------------------------------------------------
  // Relabelling

  /** Relabelling `p` changes the player and score at `p` and at no other
      position. */
  lemma {:induction false} RelabelAt(t: Node, p: Path, player: Option<string>, score: int, q: Path)
    ensures q != p ==> Label(At(Relabel(t, p, player, score), q)) == Label(At(t, q))
    ensures q == p && At(t, p).Some? ==> Label(At(Relabel(t, p, player, score), q)) == Some((player, score))
    decreases |p|
  {
    var r := Relabel(t, p, player, score);
    if |p| == 0 {
      if |q| > 0 {
        assert Child(r, q[0]) == Child(t, q[0]);
      }
    } else if Child(t, p[0]).Some? {
      var c := Child(t, p[0]).value;
      assert r == WithChild(t, p[0], Relabel(c, p[1..], player, score));
      if |q| > 0 {
        if q[0] == p[0] {
          assert q != p <==> q[1..] != p[1..] by {
            if q[1..] == p[1..] {
              assert q == [q[0]] + q[1..] && p == [p[0]] + p[1..];
            }
          }
          RelabelAt(c, p[1..], player, score, q[1..]);
        } else {
          assert Child(r, q[0]) == Child(t, q[0]);
        }
      }
    }
  }

  /** Giving a player to a node that had none displaces no placed player. */
  lemma RelabelKeeps(a: Node, t: Node, p: Path, player: Option<string>, score: int)
    requires KeepsPlayers(a, t)
    requires PlayerAt(t, p).None?
    ensures KeepsPlayers(a, Relabel(t, p, player, score))
  {
    forall q | PlayerAt(a, q).Some?
      ensures PlayerAt(Relabel(t, p, player, score), q) == PlayerAt(a, q)
    {
      RelabelAt(t, p, player, score, q);
    }
  }

  /** Relabelling leaves every other position's player and score as it was. */
  lemma RelabelOthers(t: Node, p: Path, player: Option<string>, score: int)
    ensures forall q :: q != p ==> Label(At(Relabel(t, p, player, score), q)) == Label(At(t, q))
  {
    forall q | q != p
      ensures Label(At(Relabel(t, p, player, score), q)) == Label(At(t, q))
    {
      RelabelAt(t, p, player, score, q);
    }
  }

  lemma BagPair(x: multiset<string>, y: multiset<string>, z: multiset<string>, a: string, b: string)
    requires x == y + multiset{a, b}
    requires z == (y + multiset{a}) + multiset{b}
    ensures x == z
  {
    forall e ensures x[e] == z[e] {
    }
  }

  lemma BagSwap(rest: multiset<string>, a: multiset<string>, b: multiset<string>)
    ensures (rest + a) + b == (rest + b) + a
  {
    forall e ensures ((rest + a) + b)[e] == ((rest + b) + a)[e] {
    }
  }

  lemma BagShift(rest: multiset<string>, x: multiset<string>, y: multiset<string>,
                 p: multiset<string>, q: multiset<string>)
    requires y + p == x + q
    ensures (rest + y) + p == (rest + x) + q
  {
    forall e ensures ((rest + y) + p)[e] == ((rest + x) + q)[e] {
      assert (y + p)[e] == (x + q)[e];
    }
  }

  lemma BagChain(a: multiset<string>, c: multiset<string>, t: multiset<string>,
                 c': multiset<string>, w: multiset<string>, p: multiset<string>)
    requires a + c == t + c'
    requires c' + w == c + p
    ensures a + w == t + p
  {
    forall e ensures (a + w)[e] == (t + p)[e] {
      assert (a + c)[e] == (t + c')[e];
      assert (c' + w)[e] == (c + p)[e];
    }
  }

  lemma BagCancel(a: multiset<string>, c: multiset<string>, t: multiset<string>,
                  c': multiset<string>, extra: multiset<string>)
    requires a + c == t + c'
    requires c' == c + extra
    ensures a == t + extra
  {
    forall e ensures a[e] == (t + extra)[e] {
      assert (a + c)[e] == (t + c')[e];
    }
  }

  /** Replacing a child swaps that child's players for the new child's. */
  lemma WithChildPlayers(t: Node, d: Dir, c: Node)
    requires Child(t, d).Some?
    ensures Players(WithChild(t, d, c)) + Players(Child(t, d).value) == Players(t) + Players(c)
  {
    var was := Child(t, d).value;
    var rest := if d == L
      then PlayerBag(t.player) + (if t.right.Some? then Players(t.right.value) else multiset{})
      else PlayerBag(t.player) + (if t.left.Some? then Players(t.left.value) else multiset{});
    assert Players(WithChild(t, d, c)) == rest + Players(c);
    assert Players(t) == rest + Players(was);
    BagSwap(rest, Players(c), Players(was));
  }

  /** Relabelling swaps one player for another in the tree's multiset of
      players. */
  lemma {:induction false} RelabelPlayers(t: Node, p: Path, player: Option<string>, score: int)
    requires At(t, p).Some?
    ensures Players(Relabel(t, p, player, score)) + PlayerBag(At(t, p).value.player)
         == Players(t) + PlayerBag(player)
    decreases |p|
  {
    if |p| == 0 {
      RelabelRootPlayers(t, player, score);
    } else {
      var c := Child(t, p[0]).value;
      RelabelPlayers(c, p[1..], player, score);
      RelabelChildPlayers(t, p, player, score);
    }
  }

  /** RelabelPlayers at the root itself. */
  lemma RelabelRootPlayers(t: Node, player: Option<string>, score: int)
    ensures Players(t.(player := player, score := score)) + PlayerBag(t.player) == Players(t) + PlayerBag(player)
  {
    var t' := t.(player := player, score := score);
    var l := if t.left.Some? then Players(t.left.value) else multiset{};
    var r := if t.right.Some? then Players(t.right.value) else multiset{};
    assert t'.left == t.left && t'.right == t.right;
    forall e ensures (Players(t') + PlayerBag(t.player))[e] == (Players(t) + PlayerBag(player))[e] {
      assert Players(t')[e] == PlayerBag(player)[e] + l[e] + r[e];
      assert Players(t)[e] == PlayerBag(t.player)[e] + l[e] + r[e];
    }
  }

  /** The step of RelabelPlayers below the root, given the fact for the child. */
  lemma RelabelChildPlayers(t: Node, p: Path, player: Option<string>, score: int)
    requires |p| > 0 && At(t, p).Some?
    requires Players(Relabel(Child(t, p[0]).value, p[1..], player, score)) + PlayerBag(At(t, p).value.player)
          == Players(Child(t, p[0]).value) + PlayerBag(player)
    ensures Players(Relabel(t, p, player, score)) + PlayerBag(At(t, p).value.player)
         == Players(t) + PlayerBag(player)
  {
    var c := Child(t, p[0]).value;
    var c' := Relabel(c, p[1..], player, score);
    assert Relabel(t, p, player, score) == WithChild(t, p[0], c');
    WithChildPlayers(t, p[0], c');
    BagChain(Players(Relabel(t, p, player, score)), Players(c), Players(t), Players(c'),
             PlayerBag(At(t, p).value.player), PlayerBag(player));
  }

  /** Giving an empty leaf a player removes exactly one empty leaf. */
  lemma {:induction false} RelabelEmptyLeaf(t: Node, p: Path, player: string, score: int)
    requires At(t, p).Some? && IsEmptyLeaf(At(t, p).value)
    ensures EmptyLeafCount(Relabel(t, p, Some(player), score)) + 1 == EmptyLeafCount(t)
    decreases |p|
  {
    if |p| > 0 {
      var c := Child(t, p[0]).value;
      RelabelEmptyLeaf(c, p[1..], player, score);
    }
  }

  /** An empty leaf at some position is counted by EmptyLeafCount. */
  lemma {:induction false} EmptyLeafCounted(t: Node, p: Path)
    requires At(t, p).Some? && IsEmptyLeaf(At(t, p).value)
    ensures EmptyLeafCount(t) >= 1
    decreases |p|
  {
    if |p| > 0 {
      EmptyLeafCounted(Child(t, p[0]).value, p[1..]);
    }
  }

  /** Giving a leaf a player keeps the inner nodes blank. */
  lemma {:induction false} RelabelInnerBlank(t: Node, p: Path, player: Option<string>, score: int)
    requires InnerBlank(t)
    requires At(t, p).Some? && IsLeaf(At(t, p).value)
    ensures InnerBlank(Relabel(t, p, player, score))
    decreases |p|
  {
    if |p| > 0 {
      RelabelInnerBlank(Child(t, p[0]).value, p[1..], player, score);
    }
  }

  /** Blank inner nodes and no empty leaf: the players sit exactly at the
      leaves. */
  lemma {:induction false} SeededLeaves(t: Node)
    requires InnerBlank(t) && EmptyLeafCount(t) == 0
    ensures Seeded(t)
    decreases t
  {
    if t.left.Some? { SeededLeaves(t.left.value); }
    if t.right.Some? { SeededLeaves(t.right.value); }
  }

  /** In a seeded tree, the node at any position holds a player iff it is a
      leaf. */
  lemma {:induction false} SeededAt(t: Node, p: Path)
    requires Seeded(t) && At(t, p).Some?
    ensures IsLeaf(At(t, p).value) <==> At(t, p).value.player.Some?
    decreases |p|
  {
    if |p| > 0 {
      SeededAt(Child(t, p[0]).value, p[1..]);
    }
  }

  /** When EmptyLeafCount is positive, an empty leaf exists at some position. */
  lemma {:induction false} EmptyLeafPosition(t: Node) returns (p: Path)
    requires EmptyLeafCount(t) > 0
    ensures At(t, p).Some? && IsEmptyLeaf(At(t, p).value)
    decreases t
  {
    if IsEmptyLeaf(t) {
      p := [];
    } else if t.left.Some? && EmptyLeafCount(t.left.value) > 0 {
      var q := EmptyLeafPosition(t.left.value);
      p := [L] + q;
      AtCons(t, L, q);
    } else {
      var q := EmptyLeafPosition(t.right.value);
      p := [R] + q;
      AtCons(t, R, q);
    }
  }
}

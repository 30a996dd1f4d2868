/** The match protocol of the single-elimination manager: the manager state
    (tree, queue of match positions, the pair currently being played), player
    registration, the next-match and score operations, position lookup, and a
    whole tournament as a sequence of rounds. */
module Manager {
  import opened BracketTree
  import opened Traversal
  import opened Builder

  /** The two players of a match, left first; either may be absent. */
  datatype Match = Match(player1: Option<string>, player2: Option<string>)

  /** The manager's fields: the tree, the queue of level-order positions still
      to be played (polled two at a time), and the positions of the left and
      right node of the current match. */
  datatype State = State(root: Node, matches: seq<int>, currLeft: Option<Path>, currRight: Option<Path>)

  /** What nextMatch hands back: the match, or the NoNextMatchException with
      the position that could not be resolved. */
  datatype Outcome = Next(m: Match) | NoNextMatch(index: int)

  /** The state after an operation together with what it returned. */
  datatype Step = Step(state: State, outcome: Outcome)

  /** A freshly constructed manager: a lone blank root and an empty queue. */
  const Initial: State := State(Blank, [], None, None)

  /** The state the builder leaves and every round keeps: a full tree, and a
      queue holding an even count-down m, m-1, ..., 1 of positions below the
      size of the tree. */
  ghost predicate Scheduled(s: State) {
    && Full(s.root)
    && IsCountdown(s.matches)
    && |s.matches| % 2 == 0
    && |s.matches| < Size(s.root)
  }

  /** setPlayers: with fewer than two names nothing changes; otherwise the
      tree is built on the fresh root and the queue filled. */
  method SetPlayers(s: State, players: seq<string>) returns (r: State)
    requires |players| >= 2 ==> s.root == Blank && s.matches == []
    ensures |players| < 2 ==> r == s
    ensures |players| >= 2 ==> && Scheduled(r)
                               && Size(r.root) == 2 * |players| - 1
                               && Seeded(r.root)
                               && Players(r.root) == multiset(players)
                               && PairsPlaced(r.root, players, |players| - Pow2(CeilLog2(|players|) - 1))
                               && |r.matches| == 2 * (|players| - 1)
                               && r.currLeft == s.currLeft && r.currRight == s.currRight
  {
    if |players| < 2 {
      return s;
    }
    var root, matches := BuildTree(players);
    r := s.(root := root, matches := matches);
  }

  /** hasNextMatch: the queue still holds positions. */
  predicate HasNextMatch(s: State) {
    |s.matches| > 0
  }

  /** nextMatch: polls the right position and then the left one, looks both
      up, records them as the current pair (also when a lookup fails), and
      returns the match of their players; the right position is reported
      first when neither resolves. */
  function NextMatch(s: State): (r: Step)
    requires |s.matches| >= 2
    ensures r.state.root == s.root
    ensures r.state.matches == s.matches[2..]
    ensures r.state.currRight.Some? <==> 0 <= s.matches[0] < Size(s.root)
    ensures r.state.currLeft.Some? <==> 0 <= s.matches[1] < Size(s.root)
    ensures r.state.currRight.Some? ==> r.state.currRight.value == LevelOrder(s.root, false)[s.matches[0]].path
    ensures r.state.currLeft.Some? ==> r.state.currLeft.value == LevelOrder(s.root, false)[s.matches[1]].path
    ensures r.outcome.Next? <==> r.state.currRight.Some? && r.state.currLeft.Some?
    ensures r.outcome.NoNextMatch? ==>
              r.outcome.index == (if r.state.currRight.None? then s.matches[0] else s.matches[1])
    ensures r.outcome.Next? ==>
              r.outcome.m == Match(LevelOrder(s.root, false)[s.matches[1]].node.player,
                                   LevelOrder(s.root, false)[s.matches[0]].node.player)
  {
    var rightIdx := s.matches[0];
    var leftIdx := s.matches[1];
    var right := NodeAt(s.root, rightIdx);
    var left := NodeAt(s.root, leftIdx);
    var next := s.(matches := s.matches[2..],
                   currRight := if right.Some? then Some(right.value.path) else None,
                   currLeft := if left.Some? then Some(left.value.path) else None);
    if right.None? then Step(next, NoNextMatch(rightIdx))
    else if left.None? then Step(next, NoNextMatch(leftIdx))
    else Step(next, Next(Match(left.value.node.player, right.value.node.player)))
  }

  /** The position one step above `p`. */
  function Up(p: Path): Path
    requires |p| > 0
  {
    p[..|p| - 1]
  }

  /** What setMatchScore needs: a current pair at real positions, the left
      one below the root so that it has a parent. */
  predicate InMatch(s: State) {
    && s.currLeft.Some? && s.currRight.Some?
    && At(s.root, s.currLeft.value).Some?
    && At(s.root, s.currRight.value).Some?
    && |s.currLeft.value| > 0
  }

  /** setMatchScore: stores `p1` as the left node's score and `p2` as the
      right node's, then makes the parent of the left node hold the left
      player when `p1 > p2` and the right player otherwise. */
  function SetMatchScore(s: State, p1: int, p2: int): (r: State)
    requires InMatch(s)
    ensures ShapeOf(r.root) == ShapeOf(s.root)
    ensures r.matches == s.matches && r.currLeft == s.currLeft && r.currRight == s.currRight
  {
    var lp := s.currLeft.value;
    var rp := s.currRight.value;
    var scored := SetScore(SetScore(s.root, lp, p1), rp, p2);
    ShapeAt(s.root, scored, lp);
    var winner := if p1 > p2 then PlayerAt(scored, lp) else PlayerAt(scored, rp);
    s.(root := SetPlayer(scored, Parent(scored, lp).value.path, winner))
  }

  /** getPosition: the player of the node visited `i`-th in left-to-right
      level order; None when there is no such node or it holds no player. */
  function GetPosition(s: State, i: int): (r: Option<string>)
    ensures !(0 <= i < Size(s.root)) ==> r.None?
    ensures 0 <= i < Size(s.root) ==> r == LevelOrder(s.root, false)[i].node.player
    ensures i == 0 ==> r == s.root.player
  {
    var n := NodeAt(s.root, i);
    if n.Some? then n.value.node.player else None
  }

  /** One round of the driver loop: the next match, then its score. The
      outcome is what nextMatch returned. */
  function Round(s: State, p1: int, p2: int): (r: Step)
    requires Scheduled(s) && HasNextMatch(s)
    ensures Scheduled(r.state)
    ensures r.state.matches == s.matches[2..]
    ensures ShapeOf(r.state.root) == ShapeOf(s.root)
    ensures r.outcome.Next? && r.outcome == NextMatch(s).outcome
  {
    NextMatchScheduled(s);
    var step := NextMatch(s);
    var after := SetMatchScore(step.state, p1, p2);
    ShapeSize(after.root, s.root);
    CountdownTail(s.matches);
    Step(after, step.outcome)
  }

  /** A played-out tournament: the final state and the matches in the order
      nextMatch returned them. */
  datatype Log = Log(last: State, played: seq<Match>)

  /** A whole tournament from a scheduled state: one round per score pair,
      one score pair per queued match. */
  function Play(s: State, scores: seq<(int, int)>): (r: Log)
    requires Scheduled(s) && 2 * |scores| == |s.matches|
    ensures Scheduled(r.last)
    ensures !HasNextMatch(r.last)
    ensures |r.played| == |scores|
    ensures ShapeOf(r.last.root) == ShapeOf(s.root)
    decreases |scores|
  {
    if |scores| == 0 then Log(s, [])
    else
      var step := Round(s, scores[0].0, scores[0].1);
      var rest := Play(step.state, scores[1..]);
      Log(rest.last, [step.outcome.m] + rest.played)
  }

  /** Every leaf holds a player, and so does every inner node whose children
      have been played: their positions lie beyond what is still queued. */
  ghost predicate Ready(s: State) {
    var order := LevelOrder(s.root, false);
    forall i :: 0 <= i < |order| && (IsLeaf(order[i].node) || |s.matches| < KidsBefore(order, i) + 1) ==>
      order[i].node.player.Some?
  }

  /** Every player the tree holds is one of `names`. */
  ghost predicate Roster(t: Node, names: set<string>) {
    forall q :: PlayerAt(t, q).Some? ==> PlayerAt(t, q).value in names
  }

  // ---------------------------------------------------------------------
  // Lemmas

  /** In a scheduled state with matches left, nextMatch succeeds: it returns
      the players of two sibling nodes, leaves the tree alone, and what it
      leaves is again scheduled and ready for setMatchScore. */
  /** On a scheduled manager, hasNextMatch answers whether a whole pair of
      positions is left, and then nextMatch finds both nodes. */
  lemma HasNextMatchPairs(s: State)
    requires Scheduled(s)
    ensures HasNextMatch(s) <==> |s.matches| >= 2
    ensures HasNextMatch(s) ==> NextMatch(s).outcome.Next?
  {
    if HasNextMatch(s) {
      NextMatchScheduled(s);
    }
  }

  lemma NextMatchScheduled(s: State)
    requires Scheduled(s) && HasNextMatch(s)
    ensures NextMatch(s).outcome.Next?
    ensures Siblings(NextMatch(s).state.currLeft.value, NextMatch(s).state.currRight.value)
    ensures InMatch(NextMatch(s).state)
    ensures NextMatch(s).outcome.m == Match(PlayerAt(s.root, NextMatch(s).state.currLeft.value),
                                            PlayerAt(s.root, NextMatch(s).state.currRight.value))
    ensures Scheduled(NextMatch(s).state)
  {
    var k := |s.matches| / 2;
    assert s.matches[0] == 2 * k && s.matches[1] == 2 * k - 1;
    QueuedPairSiblings(s.root, k);
    LevelOrderValid(s.root, false);
    var order := LevelOrder(s.root, false);
    assert At(s.root, order[2 * k].path) == Some(order[2 * k].node);
    assert At(s.root, order[2 * k - 1].path) == Some(order[2 * k - 1].node);
    CountdownTail(s.matches);
  }

  /** setMatchScore changes exactly three nodes: the left and right node get
      their scores, the parent gets the winner, ties going to the right
      player, and every other position keeps its player and score. */
  lemma SetMatchScoreEffect(s: State, p1: int, p2: int)
    requires InMatch(s)
    requires s.currRight.value != s.currLeft.value
    requires s.currRight.value != s.currLeft.value[..|s.currLeft.value| - 1]
    ensures var lp, rp := s.currLeft.value, s.currRight.value;
            var up := lp[..|lp| - 1];
            var r := SetMatchScore(s, p1, p2).root;
            && Label(At(r, lp)) == Some((PlayerAt(s.root, lp), p1))
            && Label(At(r, rp)) == Some((PlayerAt(s.root, rp), p2))
            && Label(At(r, up)) == Some((if p1 > p2 then PlayerAt(s.root, lp) else PlayerAt(s.root, rp),
                                         ScoreAt(s.root, up)))
            && forall q :: q != lp && q != rp && q != up ==> Label(At(r, q)) == Label(At(s.root, q))
  {
    var lp, rp := s.currLeft.value, s.currRight.value;
    var up := lp[..|lp| - 1];
    assert up != lp;
    var t1 := SetScore(s.root, lp, p1);
    var t2 := SetScore(t1, rp, p2);
    ShapeAt(s.root, t1, rp);
    ShapeAt(s.root, t2, lp);
    assert Parent(t2, lp).value.path == up;
    AtPrefix(s.root, lp);
    ShapeAt(s.root, t2, up);
    var winner := if p1 > p2 then PlayerAt(t2, lp) else PlayerAt(t2, rp);
    var r := SetPlayer(t2, up, winner);
    assert r == SetMatchScore(s, p1, p2).root;
    RelabelAt(s.root, lp, PlayerAt(s.root, lp), p1, lp);
    RelabelAt(s.root, lp, PlayerAt(s.root, lp), p1, rp);
    RelabelAt(s.root, lp, PlayerAt(s.root, lp), p1, up);
    RelabelAt(t1, rp, PlayerAt(t1, rp), p2, lp);
    RelabelAt(t1, rp, PlayerAt(t1, rp), p2, rp);
    RelabelAt(t1, rp, PlayerAt(t1, rp), p2, up);
    RelabelAt(t2, up, winner, ScoreAt(t2, up), lp);
    RelabelAt(t2, up, winner, ScoreAt(t2, up), rp);
    RelabelAt(t2, up, winner, ScoreAt(t2, up), up);
    RelabelOthers(s.root, lp, PlayerAt(s.root, lp), p1);
    RelabelOthers(t1, rp, PlayerAt(t1, rp), p2);
    RelabelOthers(t2, up, winner, ScoreAt(t2, up));
  }

  /** Dropping the first two positions of a count-down leaves a count-down. */
  lemma CountdownTail(q: seq<int>)
    requires IsCountdown(q) && |q| >= 2
    ensures IsCountdown(q[2..])
  {
    forall x | 0 <= x < |q| - 2 ensures q[2..][x] == |q| - 2 - x {
      assert q[2..][x] == q[x + 2];
    }
  }

  /** Every node of the tree is reachable through getPosition: some index
      names exactly its player. */
  lemma PositionListed(s: State, p: Path) returns (i: int)
    requires At(s.root, p).Some?
    ensures 0 <= i < Size(s.root)
    ensures GetPosition(s, i) == PlayerAt(s.root, p)
  {
    var k := LevelOrderComplete(s.root, p, false);
    i := k;
  }

  /** A freshly built bracket is ready: its leaves hold the players, and no
      inner node's children have been played yet. */
  lemma BuiltReady(s: State)
    requires Full(s.root) && Seeded(s.root)
    requires |s.matches| == Size(s.root) - 1
    ensures Ready(s)
  {
    var order := LevelOrder(s.root, false);
    LevelOrderValid(s.root, false);
    forall i | 0 <= i < |order| && (IsLeaf(order[i].node) || |s.matches| < KidsBefore(order, i) + 1)
      ensures order[i].node.player.Some?
    {
      SeededAt(s.root, order[i].path);
      if !IsLeaf(order[i].node) {
        KidsPlaced(s.root, i);
      }
    }
  }

  /** A player held anywhere in the tree is one of its players. */
  lemma {:induction false} PlayerListed(t: Node, q: Path)
    requires PlayerAt(t, q).Some?
    ensures PlayerAt(t, q).value in Players(t)
    decreases |q|
  {
    if |q| > 0 {
      var c := Child(t, q[0]).value;
      PlayerListed(c, q[1..]);
      assert PlayerAt(c, q[1..]) == PlayerAt(t, q);
    }
  }

  /** The tree built from `players` holds only those names. */
  lemma BuiltRoster(t: Node, players: seq<string>)
    requires Players(t) == multiset(players)
    ensures Roster(t, set x | x in players)
  {
    forall q | PlayerAt(t, q).Some? ensures PlayerAt(t, q).value in players {
      PlayerListed(t, q);
    }
  }

  /** On a ready bracket, the match nextMatch returns has two players. */
  lemma ReadyPair(s: State)
    requires Scheduled(s) && HasNextMatch(s) && Ready(s)
    ensures PlayerAt(s.root, NextMatch(s).state.currLeft.value).Some?
    ensures PlayerAt(s.root, NextMatch(s).state.currRight.value).Some?
  {
    NextMatchScheduled(s);
    var order := LevelOrder(s.root, false);
    var k := |s.matches| / 2;
    assert s.matches[0] == 2 * k && s.matches[1] == 2 * k - 1;
    ReadyAt(s, 2 * k - 1);
    ReadyAt(s, 2 * k);
  }

  /** On a ready bracket every node from the queue's front onwards holds a
      player, as read through its position. */
  lemma ReadyAt(s: State, i: nat)
    requires Scheduled(s) && Ready(s)
    requires |s.matches| <= i + 1 && i < Size(s.root)
    ensures PlayerAt(s.root, LevelOrder(s.root, false)[i].path).Some?
  {
    var order := LevelOrder(s.root, false);
    LevelOrderValid(s.root, false);
    assert At(s.root, order[i].path) == Some(order[i].node);
    if !IsLeaf(order[i].node) {
      KidsPlaced(s.root, i);
      KidsBeforeEven(s.root, i);
    }
  }

  /** A round on a ready bracket: no node loses its player, the parent of
      the pair gains the winner, and no name from outside comes in. */
  lemma RoundPlayers(s: State, p1: int, p2: int, names: set<string>)
    requires Scheduled(s) && HasNextMatch(s) && Ready(s)
    ensures NextMatch(s).state.currLeft.Some? && |NextMatch(s).state.currLeft.value| > 0
    ensures forall q :: PlayerAt(s.root, q).Some? ==> PlayerAt(Round(s, p1, p2).state.root, q).Some?
    ensures PlayerAt(Round(s, p1, p2).state.root, Up(NextMatch(s).state.currLeft.value)).Some?
    ensures Roster(s.root, names) ==> Roster(Round(s, p1, p2).state.root, names)
  {
    NextMatchScheduled(s);
    ReadyPair(s);
    var next := NextMatch(s).state;
    var lp, rp := next.currLeft.value, next.currRight.value;
    assert rp != lp by {
      assert lp[|lp| - 1] != rp[|rp| - 1];
    }
    SetMatchScoreEffect(next, p1, p2);
    var r := Round(s, p1, p2).state.root;
    assert r == SetMatchScore(next, p1, p2).root;
    forall q | PlayerAt(s.root, q).Some? ensures PlayerAt(r, q).Some? {
      if q != lp && q != rp && q != Up(lp) {
        assert Label(At(r, q)) == Label(At(s.root, q));
      }
    }
    if Roster(s.root, names) {
      assert PlayerAt(s.root, lp).value in names;
      assert PlayerAt(s.root, rp).value in names;
      var up := Up(lp);
      assert PlayerAt(r, up) == if p1 > p2 then PlayerAt(s.root, lp) else PlayerAt(s.root, rp);
      assert PlayerAt(r, lp) == PlayerAt(s.root, lp);
      assert PlayerAt(r, rp) == PlayerAt(s.root, rp);
      forall q | PlayerAt(r, q).Some? ensures PlayerAt(r, q).value in names {
        if q != lp && q != rp && q != up {
          assert Label(At(r, q)) == Label(At(s.root, q));
          assert PlayerAt(r, q) == PlayerAt(s.root, q);
        }
      }
    }
  }

  /** A round keeps a ready bracket ready: the only inner node whose
      children become played is the parent of the pair, which now holds the
      winner. */
  lemma RoundReady(s: State, p1: int, p2: int)
    requires Scheduled(s) && HasNextMatch(s) && Ready(s)
    ensures Ready(Round(s, p1, p2).state)
  {
    var after := Round(s, p1, p2).state;
    var order' := LevelOrder(after.root, false);
    forall i | 0 <= i < |order'| && (IsLeaf(order'[i].node) || |after.matches| < KidsBefore(order', i) + 1)
      ensures order'[i].node.player.Some?
    {
      ReadyAfter(s, p1, p2, i);
    }
  }

  /** One position of RoundReady. */
  lemma ReadyAfter(s: State, p1: int, p2: int, i: nat)
    requires Scheduled(s) && HasNextMatch(s) && Ready(s)
    requires i < Size(Round(s, p1, p2).state.root)
    requires var after := Round(s, p1, p2).state;
             var order' := LevelOrder(after.root, false);
             IsLeaf(order'[i].node) || |after.matches| < KidsBefore(order', i) + 1
    ensures LevelOrder(Round(s, p1, p2).state.root, false)[i].node.player.Some?
  {
    var after := Round(s, p1, p2).state;
    RoundPlayers(s, p1, p2, {});
    ShapeSize(s.root, after.root);
    SameEntry(s.root, after.root, i);
    var order := LevelOrder(s.root, false);
    if !(IsLeaf(order[i].node) || |s.matches| < KidsBefore(order, i) + 1) {
      ReadyParent(s, i);
    }
  }

  /** Two trees of one shape agree, at each level-order position, on the
      path, on being a leaf and on the enqueue count; each entry's player is
      the one its tree holds there. */
  lemma SameEntry(a: Node, b: Node, i: nat)
    requires ShapeOf(a) == ShapeOf(b) && i < Size(a) && i < Size(b)
    ensures var oa, ob := LevelOrder(a, false), LevelOrder(b, false);
            && oa[i].path == ob[i].path
            && IsLeaf(oa[i].node) == IsLeaf(ob[i].node)
            && KidsBefore(oa, i) == KidsBefore(ob, i)
            && oa[i].node.player == PlayerAt(a, oa[i].path)
            && ob[i].node.player == PlayerAt(b, ob[i].path)
  {
    LevelOrderShapes(a, b);
    LevelOrderValid(a, false);
    LevelOrderValid(b, false);
    var oa, ob := LevelOrder(a, false), LevelOrder(b, false);
    assert ShapeOf(oa[i].node) == ShapeOf(ob[i].node);
    assert At(a, oa[i].path) == Some(oa[i].node);
    assert At(b, ob[i].path) == Some(ob[i].node);
  }

  /** The inner node whose children sit at the front of the queue is the
      parent of the match nextMatch returns. */
  lemma ReadyParent(s: State, i: nat)
    requires Scheduled(s) && HasNextMatch(s) && i < Size(s.root)
    requires !IsLeaf(LevelOrder(s.root, false)[i].node)
    requires |s.matches| - 2 < KidsBefore(LevelOrder(s.root, false), i) + 1 <= |s.matches|
    ensures NextMatch(s).state.currLeft.Some?
    ensures NextMatch(s).state.currLeft.value == LevelOrder(s.root, false)[i].path + [L]
  {
    var order := LevelOrder(s.root, false);
    var k := |s.matches| / 2;
    assert s.matches[1] == 2 * k - 1;
    KidsBeforeEven(s.root, i);
    KidsPlaced(s.root, i);
    assert KidsBefore(order, i) == 2 * k - 2;
  }

  /** Played from a ready bracket, every match has two players from `names`,
      and the bracket stays ready with only those names. */
  lemma {:induction false} PlayReady(s: State, scores: seq<(int, int)>, names: set<string>)
    requires Scheduled(s) && 2 * |scores| == |s.matches|
    requires Ready(s) && Roster(s.root, names)
    ensures Ready(Play(s, scores).last)
    ensures Roster(Play(s, scores).last.root, names)
    ensures forall j :: 0 <= j < |scores| ==> Entrants(Play(s, scores).played[j], names)
    decreases |scores|
  {
    if |scores| > 0 {
      var step := Round(s, scores[0].0, scores[0].1);
      RoundEntrants(s, scores[0].0, scores[0].1, names);
      RoundPlayers(s, scores[0].0, scores[0].1, names);
      RoundReady(s, scores[0].0, scores[0].1);
      PlayReady(step.state, scores[1..], names);
      EntrantsCons(step.outcome.m, Play(step.state, scores[1..]).played, names);
    }
  }

  /** Both players of `m` are present and among `names`. */
  predicate Entrants(m: Match, names: set<string>) {
    && m.player1.Some? && m.player1.value in names
    && m.player2.Some? && m.player2.value in names
  }

  /** Prepending a match between known names keeps every match so. */
  lemma EntrantsCons(m: Match, rest: seq<Match>, names: set<string>)
    requires Entrants(m, names)
    requires forall j :: 0 <= j < |rest| ==> Entrants(rest[j], names)
    ensures forall j :: 0 <= j < |[m] + rest| ==> Entrants(([m] + rest)[j], names)
  {
    forall j | 0 <= j < |[m] + rest| ensures Entrants(([m] + rest)[j], names) {
      if j > 0 {
        assert ([m] + rest)[j] == rest[j - 1];
      }
    }
  }

  /** On a ready bracket holding only `names`, a round is played between two
      of them. */
  lemma RoundEntrants(s: State, p1: int, p2: int, names: set<string>)
    requires Scheduled(s) && HasNextMatch(s)
    requires Ready(s) && Roster(s.root, names)
    ensures Entrants(Round(s, p1, p2).outcome.m, names)
  {
    NextMatchScheduled(s);
    ReadyPair(s);
    var next := NextMatch(s).state;
    assert PlayerAt(s.root, next.currLeft.value).value in names;
    assert PlayerAt(s.root, next.currRight.value).value in names;
  }

  /** The last round, on a bracket with one pair left, is the final: its
      winner lands at the root, ties going to the right player. */
  lemma FinalRound(s: State, p1: int, p2: int)
    requires Scheduled(s) && |s.matches| == 2
    ensures Round(s, p1, p2).state.root.player
         == (if p1 > p2 then Round(s, p1, p2).outcome.m.player1 else Round(s, p1, p2).outcome.m.player2)
  {
    NextMatchScheduled(s);
    var next := NextMatch(s).state;
    var lp, rp := next.currLeft.value, next.currRight.value;
    var order := LevelOrder(s.root, false);
    assert s.matches[1] == 1;
    assert !IsLeaf(order[0].node) by {
      assert order[0].node == s.root;
    }
    KidsPlaced(s.root, 0);
    assert order[..0] == [];
    assert lp == [L];
    assert rp != lp && rp != Up(lp) by {
      assert lp[|lp| - 1] != rp[|rp| - 1];
    }
    SetMatchScoreEffect(next, p1, p2);
    assert Round(s, p1, p2).state.root == SetMatchScore(next, p1, p2).root;
    assert At(Round(s, p1, p2).state.root, []) == Some(Round(s, p1, p2).state.root);
  }

  /** The driver loop of CompetitionManager without its input and output:
      the bracket is built from `players`, one round is played per queued
      pair with the next score pair, and the winner is read at position 0.
      Every match is between two registered players, n - 1 of them are
      played, and the winner is one of the players: the winner of the final. */
  method RunCompetition(players: seq<string>, scores: seq<(int, int)>) returns (winner: Option<string>, played: seq<Match>)
    requires |players| >= 2
    requires |scores| >= |players| - 1
    ensures |played| == |players| - 1
    ensures forall j :: 0 <= j < |played| ==> Entrants(played[j], set x | x in players)
    ensures winner.Some? && winner.value in players
    ensures var last := |players| - 2;
            winner == if scores[last].0 > scores[last].1 then played[last].player1 else played[last].player2
  {
    var s := SetPlayers(Initial, players);
    BuiltReady(s);
    BuiltRoster(s.root, players);
    played := [];
    var k := 0;
    while HasNextMatch(s)
      invariant Progress(players, scores, s, played, k)
      decreases |s.matches|
    {
      s, played := PlayRound(players, scores, s, played, k);
      k := k + 1;
    }
    winner := GetPosition(s, 0);
    ReadyRoot(s);
    assert PlayerAt(s.root, []) == s.root.player;
  }

  /** Where the driver loop stands after `k` rounds: the bracket is ready and
      holds only registered players, every match so far was between two of
      them, and after the final the root holds its winner. */
  ghost predicate Progress(players: seq<string>, scores: seq<(int, int)>, s: State, played: seq<Match>, k: int) {
    && |players| >= 2 && 0 <= k <= |players| - 1 <= |scores|
    && Scheduled(s) && Ready(s) && Roster(s.root, set x | x in players)
    && |s.matches| == 2 * (|players| - 1 - k)
    && |played| == k
    && (forall j :: 0 <= j < k ==> Entrants(played[j], set x | x in players))
    && (k == |players| - 1 ==>
          s.root.player == if scores[k - 1].0 > scores[k - 1].1 then played[k - 1].player1 else played[k - 1].player2)
  }

  /** One turn of the driver loop: nextMatch, then setMatchScore with the
      k-th score pair. */
  method PlayRound(players: seq<string>, scores: seq<(int, int)>, s: State, played: seq<Match>, k: int)
    returns (s': State, played': seq<Match>)
    requires Progress(players, scores, s, played, k) && HasNextMatch(s)
    ensures Progress(players, scores, s', played', k + 1)
    ensures |s'.matches| < |s.matches|
  {
    var names := set x | x in players;
    var p1, p2 := scores[k].0, scores[k].1;
    var step := Round(s, p1, p2);
    RoundEntrants(s, p1, p2, names);
    RoundPlayers(s, p1, p2, names);
    RoundReady(s, p1, p2);
    if |s.matches| == 2 {
      FinalRound(s, p1, p2);
    }
    played' := played + [step.outcome.m];
    s' := step.state;
  }

  /** Once the queue is empty, a ready bracket has a player at the root. */
  lemma ReadyRoot(s: State)
    requires Ready(s) && |s.matches| == 0
    ensures s.root.player.Some?
  {
    var order := LevelOrder(s.root, false);
    assert order[0] == Entry([], s.root);
    assert KidsBefore(order, 0) + 1 > 0;
  }
}

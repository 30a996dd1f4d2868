/** Breadth-first traversal of the bracket tree. Level order is defined as a
    pure function over a FIFO worklist; the program's early-exit search is a
    worklist loop proved to stop at the first node, in that order, that its
    predicate accepts. Node lookup by index, parent lookup and the empty-leaf
    search are searches in level order. */
module Traversal {
  import opened BracketTree

  /** A visited node together with its position. */
  datatype Entry = Entry(path: Path, node: Node)

  /** The children of a visited node in the order the search enqueues them:
      right then left when `rtl`, left then right otherwise. */
  function Kids(e: Entry, rtl: bool): seq<Entry> {
    var l := if e.node.left.Some? then [Entry(e.path + [L], e.node.left.value)] else [];
    var r := if e.node.right.Some? then [Entry(e.path + [R], e.node.right.value)] else [];
    if rtl then r + l else l + r
  }

  /** Total size of the subtrees waiting in a worklist. */
  function Weight(q: seq<Entry>): nat {
    if |q| == 0 then 0 else Size(q[0].node) + Weight(q[1..])
  }

  /** The nodes the search visits, in order, starting from worklist `q`. */
  function Walk(q: seq<Entry>, rtl: bool): (r: seq<Entry>)
    ensures |r| == Weight(q)
    decreases Weight(q)
  {
    if |q| == 0 then []
    else
      WeightConcat(q[1..], Kids(q[0], rtl));
      KidsWeight(q[0], rtl);
      [q[0]] + Walk(q[1..] + Kids(q[0], rtl), rtl)
  }

  /** Level order of the tree rooted at `t`, with each node's position. */
  function LevelOrder(t: Node, rtl: bool): (r: seq<Entry>)
    ensures |r| == Size(t)
    ensures r[0] == Entry([], t)
  {
    assert [Entry([], t)][1..] == [];
    assert Weight([Entry([], t)]) == Size(t) + Weight([]);
    Walk([Entry([], t)], rtl)
  }

  /** Everything the visited nodes enqueue, in order. */
  function AllKids(s: seq<Entry>, rtl: bool): seq<Entry> {
    if |s| == 0 then [] else Kids(s[0], rtl) + AllKids(s[1..], rtl)
  }

  /** The least index `j` at or after `from` at which `p` accepts the `j`-th
      visited node. The search predicate also receives the visit number, which
      is how the program's index lookup counts the nodes it has seen. */
  function FindFrom(s: seq<Entry>, p: (nat, Entry) -> bool, from: nat): (r: Option<nat>)
    requires from <= |s|
    ensures r.Some? ==> from <= r.value < |s| && p(r.value, s[r.value])
    ensures r.Some? ==> forall j :: from <= j < r.value ==> !p(j, s[j])
    ensures r.None? ==> forall j :: from <= j < |s| ==> !p(j, s[j])
    decreases |s| - from
  {
    if from == |s| then None
    else if p(from, s[from]) then Some(from)
    else FindFrom(s, p, from + 1)
  }

  /** The node at which a breadth-first search of `t` with stopping predicate
      `p` stops, or None when the search runs out of nodes. */
  function Search(t: Node, p: (nat, Entry) -> bool, rtl: bool): Option<Entry> {
    var order := LevelOrder(t, rtl);
    var j := FindFrom(order, p, 0);
    if j.Some? then Some(order[j.value]) else None
  }

  /** The breadth-first search of the program: a FIFO worklist seeded with the
      root; each polled node is put to the predicate, and the loop stops at
      the first one accepted; otherwise the node's children are enqueued in
      the chosen direction. */
  method Bfs(root: Node, p: (nat, Entry) -> bool, rtl: bool) returns (found: Option<Entry>)
    ensures found == Search(root, p, rtl)
  {
    ghost var order := LevelOrder(root, rtl);
    var queue := [Entry([], root)];
    var index: nat := 0;
    while |queue| > 0
      invariant index <= |order|
      invariant order[index..] == Walk(queue, rtl)
      invariant FindFrom(order, p, 0) == FindFrom(order, p, index)
      decreases Weight(queue)
    {
      var e := queue[0];
      BfsStep(order, index, queue, rtl);
      if p(index, e) {
        return Some(e);
      }
      queue := EnqueueKids(queue[1..], e, rtl);
      index := index + 1;
    }
    assert order[index..] == [];
    return None;
  }

  /** The enqueueing step of the search: the polled node's children go to the
      back of the worklist, right before left when searching right to left. */
  method EnqueueKids(queue: seq<Entry>, e: Entry, rtl: bool) returns (q: seq<Entry>)
    ensures q == queue + Kids(e, rtl)
  {
    q := queue;
    if rtl {
      if e.node.right.Some? { q := q + [Entry(e.path + [R], e.node.right.value)]; }
      if e.node.left.Some? { q := q + [Entry(e.path + [L], e.node.left.value)]; }
    } else {
      if e.node.left.Some? { q := q + [Entry(e.path + [L], e.node.left.value)]; }
      if e.node.right.Some? { q := q + [Entry(e.path + [R], e.node.right.value)]; }
    }
  }

  // ---------------------------------------------------------------------
  // The three lookups

  /** getNodeAt: the node visited `i`-th in left-to-right level order. */
  function NodeAt(t: Node, i: int): (r: Option<Entry>)
    ensures r.Some? <==> 0 <= i < Size(t)
    ensures r.Some? ==> r.value == LevelOrder(t, false)[i]
    ensures i == 0 ==> r == Some(Entry([], t))
  {
    var test := (j: nat, e: Entry) => j == i;
    assert 0 <= i < Size(t) ==> test(i, LevelOrder(t, false)[i]);
    Search(t, test, false)
  }

  /** The stopping predicate of getParent: a node whose left or right child is
      the target node. */
  predicate ParentTest(target: Path, e: Entry) {
    || (e.node.left.Some? && e.path + [L] == target)
    || (e.node.right.Some? && e.path + [R] == target)
  }

  /** getParent: the first node in left-to-right level order that has the node
      at `target` as a child. Every node but the root has one, the node one
      step above it; the root and positions outside the tree have none. */
  function Parent(t: Node, target: Path): (r: Option<Entry>)
    ensures r.Some? <==> |target| > 0 && At(t, target).Some?
    ensures r.Some? ==> r.value.path == target[..|target| - 1] && At(t, r.value.path) == Some(r.value.node)
  {
    var test := (j: nat, e: Entry) => ParentTest(target, e);
    ParentSearch(t, target, test);
    Search(t, test, false)
  }

  /** getEmptyLeaf: the first node in right-to-left level order that has no
      children and no player. */
  function EmptyLeaf(t: Node): (r: Option<Entry>)
    ensures r.Some? <==> EmptyLeafCount(t) > 0
    ensures r.Some? ==> IsEmptyLeaf(r.value.node) && At(t, r.value.path) == Some(r.value.node)
    ensures r.Some? ==> exists i :: 0 <= i < Size(t) && LevelOrder(t, true)[i] == r.value
                          && forall j :: 0 <= j < i ==> !IsEmptyLeaf(LevelOrder(t, true)[j].node)
  {
    var r := Search(t, (j: nat, e: Entry) => IsEmptyLeaf(e.node), true);
    LevelOrderValid(t, true);
    if r.Some? then
      EmptyLeafCounted(t, r.value.path);
      r
    else if EmptyLeafCount(t) > 0 then
      EmptyLeafVisited(t);
      r
    else
      r
  }

  /** When the tree has an empty leaf, the right-to-left traversal meets one. */
  lemma EmptyLeafVisited(t: Node)
    requires EmptyLeafCount(t) > 0
    ensures exists i :: 0 <= i < Size(t) && IsEmptyLeaf(LevelOrder(t, true)[i].node)
  {
    var p := EmptyLeafPosition(t);
    var i := LevelOrderComplete(t, p, true);
  }

  // ---------------------------------------------------------------------
  // Lemmas

  /** One turn of the worklist loop: the polled node is the next one in level
      order, and what remains to be visited is the walk of the new worklist. */
  lemma BfsStep(order: seq<Entry>, index: nat, queue: seq<Entry>, rtl: bool)
    requires |queue| > 0
    requires index <= |order| && order[index..] == Walk(queue, rtl)
    ensures index < |order| && order[index] == queue[0]
    ensures order[index + 1..] == Walk(queue[1..] + Kids(queue[0], rtl), rtl)
    ensures Weight(queue[1..] + Kids(queue[0], rtl)) < Weight(queue)
  {
    var next := queue[1..] + Kids(queue[0], rtl);
    WeightConcat(queue[1..], Kids(queue[0], rtl));
    KidsWeight(queue[0], rtl);
    assert order[index..] == [queue[0]] + Walk(next, rtl);
    assert order[index + 1..] == order[index..][1..];
  }

  lemma {:induction false} WeightConcat(a: seq<Entry>, b: seq<Entry>)
    ensures Weight(a + b) == Weight(a) + Weight(b)
    decreases |a|
  {
    if |a| == 0 {
      assert a + b == b;
    } else {
      assert (a + b)[0] == a[0];
      assert (a + b)[1..] == a[1..] + b;
      WeightConcat(a[1..], b);
    }
  }

  lemma KidsWeight(e: Entry, rtl: bool)
    ensures Weight(Kids(e, rtl)) + 1 == Size(e.node)
  {
    var l := if e.node.left.Some? then [Entry(e.path + [L], e.node.left.value)] else [];
    var r := if e.node.right.Some? then [Entry(e.path + [R], e.node.right.value)] else [];
    assert Weight(l) == SizeOf(e.node.left) by {
      if e.node.left.Some? { assert l[1..] == []; }
    }
    assert Weight(r) == SizeOf(e.node.right) by {
      if e.node.right.Some? { assert r[1..] == []; }
    }
    WeightConcat(l, r);
    WeightConcat(r, l);
  }

  lemma AllKidsCons(e: Entry, s: seq<Entry>, rtl: bool)
    ensures AllKids([e] + s, rtl) == Kids(e, rtl) + AllKids(s, rtl)
  {
    assert ([e] + s)[0] == e;
    assert ([e] + s)[1..] == s;
  }

  /** Level order is closed under children: the visited nodes are the initial
      worklist followed by every child the visited nodes enqueue, in order. */
  lemma {:induction false} WalkFix(q: seq<Entry>, rtl: bool)
    ensures q + AllKids(Walk(q, rtl), rtl) == Walk(q, rtl)
    decreases Weight(q)
  {
    if |q| > 0 {
      var next := q[1..] + Kids(q[0], rtl);
      WeightConcat(q[1..], Kids(q[0], rtl));
      KidsWeight(q[0], rtl);
      WalkFix(next, rtl);
      var w := Walk(next, rtl);
      assert Walk(q, rtl) == [q[0]] + w;
      AllKidsCons(q[0], w, rtl);
      assert q == [q[0]] + q[1..];
      ConcatShift(q[0], q[1..], Kids(q[0], rtl), AllKids(w, rtl));
    }
  }

  lemma ConcatShift(x: Entry, a: seq<Entry>, b: seq<Entry>, c: seq<Entry>)
    ensures ([x] + a) + (b + c) == [x] + ((a + b) + c)
  {
  }

  /** The root, then every child enqueued during the traversal. */
  lemma LevelOrderFix(t: Node, rtl: bool)
    ensures LevelOrder(t, rtl) == [Entry([], t)] + AllKids(LevelOrder(t, rtl), rtl)
  {
    WalkFix([Entry([], t)], rtl);
  }

  /** Each entry names a real node of `root` at its position. */
  ghost predicate ValidIn(root: Node, s: seq<Entry>) {
    forall i :: 0 <= i < |s| ==> At(root, s[i].path) == Some(s[i].node)
  }

  lemma KidsValid(root: Node, e: Entry, rtl: bool)
    requires At(root, e.path) == Some(e.node)
    ensures ValidIn(root, Kids(e, rtl))
  {
    AtSnoc(root, e.path, L);
    AtSnoc(root, e.path, R);
  }

  lemma {:induction false} WalkValid(root: Node, q: seq<Entry>, rtl: bool)
    requires ValidIn(root, q)
    ensures ValidIn(root, Walk(q, rtl))
    decreases Weight(q)
  {
    if |q| > 0 {
      var next := q[1..] + Kids(q[0], rtl);
      WeightConcat(q[1..], Kids(q[0], rtl));
      KidsWeight(q[0], rtl);
      KidsValid(root, q[0], rtl);
      assert ValidIn(root, next) by {
        forall i | 0 <= i < |next|
          ensures At(root, next[i].path) == Some(next[i].node)
        {
          if i < |q| - 1 {
            assert next[i] == q[i + 1];
          } else {
            assert next[i] == Kids(q[0], rtl)[i - (|q| - 1)];
          }
        }
      }
      WalkValid(root, next, rtl);
      var w := Walk(next, rtl);
      assert Walk(q, rtl) == [q[0]] + w;
      forall i | 0 <= i < |Walk(q, rtl)|
        ensures At(root, Walk(q, rtl)[i].path) == Some(Walk(q, rtl)[i].node)
      {
        if i > 0 {
          assert Walk(q, rtl)[i] == w[i - 1];
        }
      }
    }
  }

  /** Every entry of level order sits at its own position in the tree. */
  lemma LevelOrderValid(t: Node, rtl: bool)
    ensures ValidIn(t, LevelOrder(t, rtl))
  {
    WalkValid(t, [Entry([], t)], rtl);
  }

  lemma {:induction false} KidInAllKids(s: seq<Entry>, i: nat, rtl: bool, x: Entry)
    requires i < |s|
    requires x in Kids(s[i], rtl)
    ensures x in AllKids(s, rtl)
    decreases i
  {
    if i > 0 {
      KidInAllKids(s[1..], i - 1, rtl, x);
    }
  }

  /** Every node of the tree is visited: its position occurs in level order. */
  lemma {:induction false} LevelOrderComplete(t: Node, p: Path, rtl: bool) returns (i: nat)
    requires At(t, p).Some?
    ensures i < Size(t)
    ensures LevelOrder(t, rtl)[i] == Entry(p, At(t, p).value)
    decreases |p|
  {
    var order := LevelOrder(t, rtl);
    LevelOrderValid(t, rtl);
    if |p| == 0 {
      i := 0;
    } else {
      var pre := p[..|p| - 1];
      var d := p[|p| - 1];
      AtPrefix(t, p);
      var k := LevelOrderComplete(t, pre, rtl);
      var x := Entry(p, At(t, p).value);
      assert pre + [d] == p;
      assert x in Kids(order[k], rtl);
      i := KidListed(t, k, x, rtl);
    }
  }

  /** A child of a listed entry is listed too. */
  lemma KidListed(t: Node, k: nat, x: Entry, rtl: bool) returns (i: nat)
    requires k < Size(t) && x in Kids(LevelOrder(t, rtl)[k], rtl)
    ensures i < Size(t) && LevelOrder(t, rtl)[i] == x
  {
    var order := LevelOrder(t, rtl);
    KidInAllKids(order, k, rtl, x);
    LevelOrderFix(t, rtl);
    assert x in order;
    var j :| 0 <= j < |order| && order[j] == x;
    i := j;
  }

  /** The bfs method and the search it implements agree on every input. */
  lemma SearchFound(t: Node, p: (nat, Entry) -> bool, rtl: bool)
    ensures Search(t, p, rtl).Some? <==>
      exists i :: 0 <= i < Size(t) && p(i, LevelOrder(t, rtl)[i])
    ensures Search(t, p, rtl).Some? ==> At(t, Search(t, p, rtl).value.path) == Some(Search(t, p, rtl).value.node)
  {
    LevelOrderValid(t, rtl);
  }

  /** The search with getParent's test stops exactly for a non-root node of
      the tree, and then at the node one step above it. */
  lemma ParentSearch(t: Node, target: Path, test: (nat, Entry) -> bool)
    requires forall j: nat, e: Entry :: test(j, e) == ParentTest(target, e)
    ensures Search(t, test, false).Some? <==> |target| > 0 && At(t, target).Some?
    ensures Search(t, test, false).Some? ==>
              && Search(t, test, false).value.path == target[..|target| - 1]
              && At(t, target[..|target| - 1]) == Some(Search(t, test, false).value.node)
  {
    var order := LevelOrder(t, false);
    LevelOrderValid(t, false);
    var found := FindFrom(order, test, 0);
    if found.Some? {
      ParentTestAt(t, target, order[found.value]);
    } else if |target| > 0 && At(t, target).Some? {
      var pre := target[..|target| - 1];
      AtPrefix(t, target);
      assert target == pre + [target[|target| - 1]];
      var k := LevelOrderComplete(t, pre, false);
      assert false;
    }
  }

  /** A node of the tree that passes getParent's test is one step above the
      target, and the target is a node of the tree. */
  lemma ParentTestAt(t: Node, target: Path, e: Entry)
    requires At(t, e.path) == Some(e.node)
    requires ParentTest(target, e)
    ensures |target| > 0 && e.path == target[..|target| - 1]
    ensures At(t, target).Some?
  {
    ParentTestPath(target, e);
    AtSnoc(t, e.path, target[|target| - 1]);
    assert target == e.path + [target[|target| - 1]];
  }

  lemma ParentTestPath(target: Path, e: Entry)
    requires ParentTest(target, e)
    ensures |target| > 0 && e.path == target[..|target| - 1]
  {
    if e.node.left.Some? && e.path + [L] == target {
      assert e.path == (e.path + [L])[..|e.path|];
    } else {
      assert e.path == (e.path + [R])[..|e.path|];
    }
  }

  /** In left-to-right level order of a full tree, positions 2k-1 and 2k are
      the left and right child of one node, for every k with 2k below the
      size. */
  lemma QueuedPairSiblings(t: Node, k: nat)
    requires Full(t)
    requires 1 <= k && 2 * k < Size(t)
    ensures Siblings(LevelOrder(t, false)[2 * k - 1].path, LevelOrder(t, false)[2 * k].path)
  {
    var order := LevelOrder(t, false);
    LevelOrderFix(t, false);
    LevelOrderValid(t, false);
    forall i | 0 <= i < |order| ensures Full(order[i].node) {
      FullAt(t, order[i].path);
    }
    var kids := AllKids(order, false);
    assert order[1..] == kids;
    var j := PairOwner(order, 2 * k - 2);
    assert order[2 * k - 1] == kids[2 * k - 2];
    assert order[2 * k] == kids[2 * k - 1];
    var base := order[j].path;
    assert (base + [L])[..|base|] == base;
    assert (base + [R])[..|base|] == base;
  }

  /** In the enqueued children of nodes that each have two children or none,
      positions 2x and 2x+1 are the left and right child of one node. */
  lemma {:induction false} PairOwner(s: seq<Entry>, x: nat) returns (j: nat)
    requires forall i :: 0 <= i < |s| ==> Full(s[i].node)
    requires x % 2 == 0 && x + 1 < |AllKids(s, false)|
    ensures j < |s|
    ensures AllKids(s, false)[x].path == s[j].path + [L]
    ensures AllKids(s, false)[x + 1].path == s[j].path + [R]
    decreases |s|
  {
    var first := Kids(s[0], false);
    var rest := AllKids(s[1..], false);
    assert AllKids(s, false) == first + rest;
    assert Full(s[0].node);
    if |first| == 0 {
      var j' := PairOwner(s[1..], x);
      j := j' + 1;
    } else if x == 0 {
      j := 0;
    } else {
      assert |first| == 2;
      var j' := PairOwner(s[1..], x - 2);
      j := j' + 1;
    }
  }
  // ---------------------------------------------------------------------
  // Where the children of a node sit in level order

  /** How many entries the first `i` visited nodes enqueue. */
  function KidsBefore(s: seq<Entry>, i: nat): nat
    requires i <= |s|
  {
    |AllKids(s[..i], false)|
  }

  lemma {:induction false} AllKidsSplit(s: seq<Entry>, i: nat, rtl: bool)
    requires i < |s|
    ensures AllKids(s, rtl) == AllKids(s[..i], rtl) + Kids(s[i], rtl) + AllKids(s[i + 1..], rtl)
    decreases i
  {
    if i == 0 {
      assert s[..0] == [];
    } else {
      AllKidsSplit(s[1..], i - 1, rtl);
      assert s[1..][..i - 1] == s[1..i];
      assert s[1..][i - 1] == s[i];
      assert s[1..][i..] == s[i + 1..];
      var k0, x, k, y := Kids(s[0], rtl), AllKids(s[1..i], rtl), Kids(s[i], rtl), AllKids(s[i + 1..], rtl);
      assert AllKids(s[1..], rtl) == x + k + y;
      assert AllKids(s, rtl) == k0 + (x + k + y);
      assert s[..i] == [s[0]] + s[1..i];
      AllKidsCons(s[0], s[1..i], rtl);
      assert AllKids(s[..i], rtl) == k0 + x;
      ConcatRegroup(k0, x, k, y);
    }
  }

  lemma ConcatRegroup(a: seq<Entry>, b: seq<Entry>, c: seq<Entry>, d: seq<Entry>)
    ensures a + (b + c + d) == (a + b) + c + d
  {
  }

  /** A node's children are visited after it: the entries the first `i` nodes
      enqueue, behind the initial worklist, reach past position `i`. */
  lemma {:induction false} WalkKidsAfter(q: seq<Entry>, rtl: bool, i: nat)
    requires |q| >= 1 && i < |Walk(q, rtl)|
    ensures |q| + |AllKids(Walk(q, rtl)[..i], rtl)| > i
    decreases Weight(q)
  {
    if i > 0 {
      var w := Walk(q, rtl);
      var next := q[1..] + Kids(q[0], rtl);
      WeightConcat(q[1..], Kids(q[0], rtl));
      KidsWeight(q[0], rtl);
      var w' := Walk(next, rtl);
      assert w == [q[0]] + w';
      assert w[..i] == [q[0]] + w'[..i - 1];
      AllKidsCons(q[0], w'[..i - 1], rtl);
      WalkKidsAfter(next, rtl, i - 1);
    }
  }

  /** In left-to-right level order of a full tree, the children of the inner
      node at position `i` sit at positions KidsBefore + 1 and KidsBefore + 2,
      both after `i`. */
  lemma KidsPlaced(t: Node, i: nat)
    requires Full(t) && i < Size(t)
    requires !IsLeaf(LevelOrder(t, false)[i].node)
    ensures i < KidsBefore(LevelOrder(t, false), i) + 1
    ensures KidsBefore(LevelOrder(t, false), i) + 2 < Size(t)
    ensures LevelOrder(t, false)[KidsBefore(LevelOrder(t, false), i) + 1].path == LevelOrder(t, false)[i].path + [L]
    ensures LevelOrder(t, false)[KidsBefore(LevelOrder(t, false), i) + 2].path == LevelOrder(t, false)[i].path + [R]
  {
    var order := LevelOrder(t, false);
    var e := order[i];
    LevelOrderValid(t, false);
    FullAt(t, e.path);
    LevelOrderFix(t, false);
    AllKidsSplit(order, i, false);
    PairAt(order, Entry([], t), AllKids(order, false), AllKids(order[..i], false), Kids(e, false),
           AllKids(order[i + 1..], false));
    assert [Entry([], t)][1..] == [];
    WalkKidsAfter([Entry([], t)], false, i);
  }

  /** Where a two-entry block sits after a head and a prefix `x`. */
  lemma PairAt(s: seq<Entry>, h: Entry, a: seq<Entry>, x: seq<Entry>, kids: seq<Entry>, y: seq<Entry>)
    requires s == [h] + a && a == x + kids + y && |kids| == 2
    ensures |x| + 2 < |s| && s[|x| + 1] == kids[0] && s[|x| + 2] == kids[1]
  {
    assert s[|x| + 1] == a[|x|] && s[|x| + 2] == a[|x| + 1];
    assert a[|x|] == kids[0] && a[|x| + 1] == kids[1];
  }

  /** Nodes with two children or none enqueue an even number of entries. */
  lemma {:induction false} FullKidsEven(s: seq<Entry>, rtl: bool)
    requires forall i :: 0 <= i < |s| ==> Full(s[i].node)
    ensures |AllKids(s, rtl)| % 2 == 0
    decreases |s|
  {
    if |s| > 0 {
      assert Full(s[0].node);
      FullKidsEven(s[1..], rtl);
    }
  }

  /** In a full tree, every count of enqueued entries is even. */
  lemma KidsBeforeEven(t: Node, i: nat)
    requires Full(t) && i <= Size(t)
    ensures KidsBefore(LevelOrder(t, false), i) % 2 == 0
  {
    var order := LevelOrder(t, false);
    LevelOrderValid(t, false);
    forall j | 0 <= j < i ensures Full(order[..i][j].node) {
      FullAt(t, order[j].path);
    }
    FullKidsEven(order[..i], false);
  }

  // ---------------------------------------------------------------------
  // Level order depends on the shape only

  /** Two worklists with the same positions and the same subtree shapes. */
  ghost predicate SameShapes(a: seq<Entry>, b: seq<Entry>) {
    && |a| == |b|
    && forall i :: 0 <= i < |a| ==> a[i].path == b[i].path && ShapeOf(a[i].node) == ShapeOf(b[i].node)
  }

  lemma KidsShapes(a: Entry, b: Entry, rtl: bool)
    requires a.path == b.path && ShapeOf(a.node) == ShapeOf(b.node)
    ensures SameShapes(Kids(a, rtl), Kids(b, rtl))
  {
  }

  lemma {:induction false} WalkShapes(a: seq<Entry>, b: seq<Entry>, rtl: bool)
    requires SameShapes(a, b)
    ensures SameShapes(Walk(a, rtl), Walk(b, rtl))
    decreases Weight(a)
  {
    if |a| > 0 {
      var na := a[1..] + Kids(a[0], rtl);
      var nb := b[1..] + Kids(b[0], rtl);
      WeightConcat(a[1..], Kids(a[0], rtl));
      KidsWeight(a[0], rtl);
      KidsShapes(a[0], b[0], rtl);
      SameShapesConcat(a[1..], b[1..], Kids(a[0], rtl), Kids(b[0], rtl));
      WalkShapes(na, nb, rtl);
      SameShapesConcat([a[0]], [b[0]], Walk(na, rtl), Walk(nb, rtl));
    }
  }

  /** Matching worklists stay matched when concatenated. */
  lemma SameShapesConcat(a: seq<Entry>, b: seq<Entry>, c: seq<Entry>, d: seq<Entry>)
    requires SameShapes(a, b) && SameShapes(c, d)
    ensures SameShapes(a + c, b + d)
  {
    forall i | 0 <= i < |a + c|
      ensures (a + c)[i].path == (b + d)[i].path && ShapeOf((a + c)[i].node) == ShapeOf((b + d)[i].node)
    {
      if i >= |a| {
        assert (a + c)[i] == c[i - |a|] && (b + d)[i] == d[i - |a|];
      }
    }
  }

  lemma {:induction false} AllKidsShapes(a: seq<Entry>, b: seq<Entry>, rtl: bool)
    requires SameShapes(a, b)
    ensures SameShapes(AllKids(a, rtl), AllKids(b, rtl))
    decreases |a|
  {
    if |a| > 0 {
      KidsShapes(a[0], b[0], rtl);
      AllKidsShapes(a[1..], b[1..], rtl);
    }
  }

  /** Trees of the same shape list the same positions in the same order, with
      the same subtree shapes and the same enqueue counts. */
  lemma LevelOrderShapes(a: Node, b: Node)
    requires ShapeOf(a) == ShapeOf(b)
    ensures SameShapes(LevelOrder(a, false), LevelOrder(b, false))
    ensures forall i :: 0 <= i <= Size(a) ==> KidsBefore(LevelOrder(a, false), i) == KidsBefore(LevelOrder(b, false), i)
  {
    WalkShapes([Entry([], a)], [Entry([], b)], false);
    ShapeSize(a, b);
    var oa, ob := LevelOrder(a, false), LevelOrder(b, false);
    forall i | 0 <= i <= Size(a) ensures KidsBefore(oa, i) == KidsBefore(ob, i) {
      AllKidsShapes(oa[..i], ob[..i], false);
    }
  }
}

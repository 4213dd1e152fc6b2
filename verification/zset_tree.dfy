/** zset.cc: the index by (score, name), an AVL tree searched and changed by comparing pairs. */
module ZSetTree {
  import opened Pairs
  import opened AvlTree
  import opened Avl
  import opened Ranking

  function KeyOf(n: AVLNode): Pair
    reads n.data
  {
    Pair(n.data.score, n.data.name)
  }

  ghost function Data(S: set<AVLNode>): set<ZData> {
    set n | n in S :: n.data
  }

  /** The nodes carry the scores of the map. */
  ghost predicate HasScores(S: set<AVLNode>, scores: Scores)
    reads set n | n in S :: n.data
  {
    forall n | n in S :: n.data.name in scores && n.data.score == scores[n.data.name]
  }

  /** A balanced search tree in the order of the scores. */
  ghost predicate IsIndex(t: Tree, scores: Scores) {
    Distinct(t) && Balanced(t) && Sorted(scores, Inorder(t))
  }

  lemma GoesLeft(scores: Scores, node: AVLNode, n: AVLNode)
    requires node.data.name in scores && n.data.name in scores && node.data.name != n.data.name
    ensures ZLess(PairOf(scores, node), PairOf(scores, n)) <==> !ZLess(PairOf(scores, n), PairOf(scores, node))
  {
    ZLessIsStrictTotalOrder(PairOf(scores, node), PairOf(scores, n), PairOf(scores, n));
  }

  lemma CurrentNode(m: Memory, c: Context, t: Tree)
    requires t.Bin? && IsTree(m, Plug(c, t), null)
    ensures t.node in Nodes(Plug(c, t)) && t.node in m
    ensures m[t.node].left == Root(t.left) && m[t.node].right == Root(t.right)
  {
    PlugNodes(c, t);
    TreeSplit(m, c, t);
  }

  /** The descent of tree_insert(): the place `*from` is the root, or a child link of `parent`. */
  method FindPlace(root: AVLNode?, node: AVLNode, ghost S: set<AVLNode>, ghost t: Tree, ghost scores: Scores)
    returns (parent: AVLNode?, left: bool, ghost c: Context)
    requires root == Root(t) && IsTree(Snapshot(S), t, null) && Sorted(scores, Inorder(t))
    requires HasScores(S, scores) && node in S && Nodes(t) <= S
    requires forall n | n in Nodes(t) :: n.data.name != node.data.name
    ensures Plug(c, Nil) == t && parent == Parent(c) && (parent != null ==> left == c.Left?)
    ensures Splits(scores, c, PairOf(scores, node))
  {
    ghost var key := PairOf(scores, node);
    hide Sorted, Splits, ZLess, IsTree;
    TopSplits(scores, key);
    ghost var m, s := Snapshot(S), t;
    var at := root;
    parent, left, c := null, false, Top;
    while at != null
      invariant Plug(c, s) == t && at == Root(s) && parent == Parent(c) && (parent != null ==> left == c.Left?)
      invariant Splits(scores, c, key)
      decreases s
    {
      CurrentNode(m, c, s);
      DescendLeft(scores, c, s, key);
      DescendRight(scores, c, s, key);
      GoesLeft(scores, node, at);
      parent := at;
      left := ZLess(KeyOf(node), KeyOf(at));
      if left {
        at := at.left;
        c, s := Left(c, parent, s.right), s.left;
      } else {
        at := at.right;
        c, s := Right(s.left, parent, c), s.right;
      }
    }
  }

  lemma LeafAttached(m: Memory, m': Memory, S: set<AVLNode>, c: Context, node: AVLNode)
    requires IsTree(m, Plug(c, Nil), null) && Distinct(Plug(c, Nil)) && node !in Nodes(Plug(c, Nil))
    requires S == Nodes(Plug(c, Nil)) + {node}
    requires HoleReplaced(m, m', c, node)
    requires node in m' && m'[node] == Cell(Parent(c), null, null, 1, 1)
    ensures Climbing(m', S, c, Bin(Nil, node, Nil))
  {
    PlugNodes(c, Nil);
    PlugDistinct(c, Nil);
    TreeSplit(m, c, Nil);
    if !c.Top? {
      TreeFrame(m, m', if c.Left? then c.right else c.left, c.node);
      ContextFrame(m, m', c.up, c.node);
    }
  }

  /** The end of tree_insert() before rebalancing: *from = node; node->parent = parent. */
  method Attach(parent: AVLNode?, left: bool, node: AVLNode, ghost S: set<AVLNode>, ghost c: Context)
    requires parent == Parent(c) && (parent != null ==> left == c.Left?)
    requires IsTree(Snapshot(S), Plug(c, Nil), null) && Distinct(Plug(c, Nil)) && node !in Nodes(Plug(c, Nil))
    requires S == Nodes(Plug(c, Nil)) + {node}
    requires node.left == node.right == null && node.height == node.size == 1
    modifies node, parent
    ensures Climbing(Snapshot(S), S, c, Bin(Nil, node, Nil))
  {
    hide IsTree, Climbing, Distinct;
    ghost var m := Snapshot(S);
    ParentInTree(c);
    if parent != null {
      if left {
        parent.left := node;
      } else {
        parent.right := node;
      }
    }
    node.parent := parent;
    LeafAttached(m, Snapshot(S), S, c, node);
  }

  lemma ParentInTree(c: Context)
    ensures forall n | n in ContextNodes(c) :: n in Nodes(Plug(c, Nil))
    ensures !c.Top? ==> c.node in ContextNodes(c)
  {
    PlugNodes(c, Nil);
  }

  /** The tree after a leaf has been put into the hole of c. */
  lemma LeafInserted(c: Context, node: AVLNode, scores: Scores)
    requires IsIndex(Plug(c, Nil), scores) && node !in Nodes(Plug(c, Nil)) && node.data.name in scores
    requires Splits(scores, c, PairOf(scores, node))
    requires forall n | n in Nodes(Plug(c, Nil)) :: n.data.name != node.data.name
    ensures var u := Repair(c, Bin(Nil, node, Nil)); IsIndex(u, scores) && Nodes(u) == Nodes(Plug(c, Nil)) + {node}
  {
    hide Splits, Sorted, Distinct, Balanced, ZLess, Repair;
    var leaf := Bin(Nil, node, Nil);
    PlugNodes(c, Nil);
    PlugDistinct(c, Nil);
    LeafIsBalanced(node);
    RepairDistinct(c, leaf);
    RepairBalances(c, Nil, leaf);
    InorderNodes(Plug(c, Nil));
    NewcomerFits(scores, c, node);
    RepairInorder(c, leaf);
    assert Inorder(leaf) == [node];
  }

  lemma LeafIsBalanced(node: AVLNode)
    ensures var leaf := Bin(Nil, node, Nil);
            Balanced(leaf) && Distinct(leaf) && Distinct(Nil) && Nodes(leaf) == {node} && Height(leaf) == 1
              && Height(Nil) == 0
  {
  }

  /** tree_insert(): the new root, of a balanced tree in which the node has its place in the order. */
  method TreeInsert(root: AVLNode?, node: AVLNode, ghost S: set<AVLNode>, ghost t: Tree, ghost scores: Scores)
    returns (newRoot: AVLNode, ghost u: Tree)
    requires S == Nodes(t) + {node} && node !in Nodes(t) && root == Root(t) && IsTree(Snapshot(S), t, null)
    requires IsIndex(t, scores) && HasScores(S, scores)
    requires forall n | n in Nodes(t) :: n.data.name != node.data.name
    requires node.left == node.right == null && node.height == node.size == 1
    modifies S
    ensures newRoot == Root(u) && IsTree(Snapshot(S), u, null)
    ensures Nodes(u) == S && IsIndex(u, scores)
  {
    var parent, left;
    ghost var c;
    assert Distinct(t) && Sorted(scores, Inorder(t));
    hide IsTree, Sorted, Splits, Climbing, Distinct, Balanced;
    parent, left, c := FindPlace(root, node, S, t, scores);
    ParentInTree(c);
    LeafInserted(c, node, scores);
    Attach(parent, left, node, S, c);
    newRoot := AvlFix(node, S, c, Bin(Nil, node, Nil));
    u := Repair(c, Bin(Nil, node, Nil));
    assert FixStep(Bin(Nil, node, Nil)) == Bin(Nil, node, Nil);
  }

  /** zset_seekge(): the first of the sorted nodes that does not come before the key, at rank k. */
  method SeekGe(root: AVLNode?, key: Pair, ghost S: set<AVLNode>, ghost t: Tree, ghost scores: Scores)
    returns (found: AVLNode?, ghost k: nat)
    requires root == Root(t) && IsTree(Snapshot(S), t, null) && Nodes(t) <= S
    requires Sorted(scores, Inorder(t)) && HasScores(S, scores)
    ensures k <= |Inorder(t)| && found == if k < |Inorder(t)| then Inorder(t)[k] else null
    ensures AllBefore(scores, Inorder(t)[..k], key) && NoneBefore(scores, Inorder(t)[k..], key)
  {
    hide Sorted, Splits, ZLess, IsTree, AvlTree.After, AvlTree.Before, Inorder, AllBefore, NoneBefore, Known, Nodes;
    ghost var m, c, s := Snapshot(S), Top, t;
    TopSplits(scores, key);
    found := null;
    var node := root;
    while node != null
      invariant Plug(c, s) == t && node == Root(s) && Splits(scores, c, key)
      invariant found == if After(c) == [] then null else After(c)[0]
      decreases s
    {
      CurrentNode(m, c, s);
      DescendLeft(scores, c, s, key);
      DescendRight(scores, c, s, key);
      if ZLess(KeyOf(node), key) {
        FirstAfter(c, s.left, node);
        c, s := Right(s.left, node, c), s.right;
        node := node.right;
      } else {
        FirstAfter(c, s.right, node);
        found := node;
        c, s := Left(c, node, s.right), s.left;
        node := node.left;
      }
    }
    k := |Before(c)|;
    SplitEnds(scores, c, key);
  }

  /** The tree without a node, seen by a new score for that node. */
  lemma TakenOut(t: Tree, node: AVLNode, scores: Scores, score: int)
    requires node in Nodes(t) && IsIndex(t, scores)
    requires forall n | n in Nodes(t) && n != node :: n.data.name != node.data.name
    ensures Nodes(Delete(t, node)) == Nodes(t) - {node}
    ensures IsIndex(Delete(t, node), scores[node.data.name := score])
    ensures IsIndex(Delete(t, node), scores - {node.data.name})
  {
    hide Sorted, Distinct, Balanced, Delete;
    DeleteIsCorrect(t, node);
    SplitAtNode(t, node);
    SortedWithout(scores, NodesBefore(t, node), node, NodesAfter(t, node));
    var u := Delete(t, node);
    InorderNodes(u);
    assert forall i | 0 <= i < |Inorder(u)| :: Inorder(u)[i] in Nodes(u);
    SortedFrame(scores, scores[node.data.name := score], Inorder(u));
    SortedFrame(scores, scores - {node.data.name}, Inorder(u));
  }

  /** zset_update(): takes the node out of the tree, changes its score and puts it back. */
  method Reposition(root: AVLNode?, node: AVLNode, score: int, ghost S: set<AVLNode>, ghost t: Tree,
                    ghost scores: Scores)
    returns (newRoot: AVLNode, ghost u: Tree)
    requires S == Nodes(t) && node in S && IsTree(Snapshot(S), t, null)
    requires IsIndex(t, scores) && HasScores(S, scores)
    requires forall n | n in S && n != node :: n.data.name != node.data.name
    modifies S, node.data
    ensures newRoot == Root(u) && IsTree(Snapshot(S), u, null) && Nodes(u) == S
    ensures IsIndex(u, scores[node.data.name := score]) && HasScores(S, scores[node.data.name := score])
  {
    hide IsTree, IsIndex, Distinct, Delete;
    TakenOut(t, node, scores, score);
    var rest := Extract(node, S, t, scores);
    SetScore(node, score, S, scores);
    newRoot, u := TreeInsert(rest, node, S, Delete(t, node), scores[node.data.name := score]);
  }

  /** avl_del() and avl_init() */
  method Extract(node: AVLNode, ghost S: set<AVLNode>, ghost t: Tree, ghost scores: Scores) returns (rest: AVLNode?)
    requires S == Nodes(t) && node in S && IsTree(Snapshot(S), t, null) && IsIndex(t, scores)
    modifies S
    ensures rest == Root(Delete(t, node)) && IsTree(Snapshot(S), Delete(t, node), null)
    ensures node.left == node.right == null && node.height == node.size == 1
  {
    hide IsTree, Distinct, Delete, Sorted, Balanced;
    DeleteIsCorrect(t, node);
    rest := AvlDel(node, S, t);
    ghost var m := Snapshot(S);
    node.Init();
    TreeFrame(m, Snapshot(S), Delete(t, node), null);
  }

  method SetScore(node: AVLNode, score: int, ghost S: set<AVLNode>, ghost scores: Scores)
    requires node in S && HasScores(S, scores) && forall n | n in S && n != node :: n.data.name != node.data.name
    modifies node.data
    ensures HasScores(S, scores[node.data.name := score])
  {
    node.data.score := score;
  }

  lemma TopSplits(scores: Scores, key: Pair)
    ensures After(Top) == [] && Splits(scores, Top, key)
  {
  }

  lemma FirstAfter(c: Context, t: Tree, n: AVLNode)
    ensures After(Left(c, n, t)) != [] && After(Left(c, n, t))[0] == n && After(Right(t, n, c)) == After(c)
  {
  }

  lemma SplitEnds(scores: Scores, c: Context, key: Pair)
    requires Splits(scores, c, key)
    ensures var s, k := Inorder(Plug(c, Nil)), |Before(c)|;
            && k <= |s| && s[..k] == Before(c) && s[k..] == After(c)
            && AllBefore(scores, s[..k], key) && NoneBefore(scores, s[k..], key)
  {
    PlugInorder(c, Nil);
  }
}

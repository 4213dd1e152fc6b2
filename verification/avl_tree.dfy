/** The shape of an AVL tree as a value: which node sits where, and what rebalancing does to it. */
module AvlTree {
  import opened Pairs

  /** The data fields of ZNode. */
  class ZData {
    const name: Name
    var score: int

    constructor (name: Name, score: int)
      ensures this.name == name && this.score == score
    {
      this.name, this.score := name, score;
    }
  }

  /** AVLNode of avl.hh; `data` leads to the data of the enclosing ZNode, reached there by container_of. */
  class AVLNode {
    var parent: AVLNode?
    var left: AVLNode?
    var right: AVLNode?
    var height: nat
    var size: nat
    const data: ZData

    constructor (data: ZData)
      ensures parent == left == right == null
      ensures height == size == 1 && this.data == data
    {
      this.data := data;
      parent, left, right := null, null, null;
      height, size := 1, 1;
    }

    /** avl_init() */
    method Init()
      modifies this
      ensures parent == left == right == null && height == size == 1
    {
      parent, left, right := null, null, null;
      height, size := 1, 1;
    }
  }

  datatype Tree = Nil | Bin(left: Tree, node: AVLNode, right: Tree)

  /** A tree with one subtree missing: `Left` when the hole is the left child of `node`. */
  datatype Context =
    | Top
    | Left(up: Context, node: AVLNode, right: Tree)
    | Right(left: Tree, node: AVLNode, up: Context)

  function Max(a: nat, b: nat): nat {
    if a > b then a else b
  }

  ghost function Height(t: Tree): nat {
    match t
    case Nil => 0
    case Bin(l, _, r) => 1 + Max(Height(l), Height(r))
  }

  ghost function Size(t: Tree): nat {
    match t
    case Nil => 0
    case Bin(l, _, r) => 1 + Size(l) + Size(r)
  }

  ghost function Nodes(t: Tree): set<AVLNode> {
    match t
    case Nil => {}
    case Bin(l, n, r) => Nodes(l) + {n} + Nodes(r)
  }

  ghost function Inorder(t: Tree): (s: seq<AVLNode>)
    ensures |s| == Size(t)
  {
    match t
    case Nil => []
    case Bin(l, n, r) => Inorder(l) + [n] + Inorder(r)
  }

  lemma {:induction false} InorderNodes(t: Tree)
    ensures forall n | n in Inorder(t) :: n in Nodes(t)
    ensures forall n | n in Nodes(t) :: n in Inorder(t)
  {
    if t.Bin? {
      InorderNodes(t.left);
      InorderNodes(t.right);
    }
  }

  function Root(t: Tree): AVLNode? {
    if t.Nil? then null else t.node
  }

  ghost predicate Close(a: nat, b: nat, d: nat) {
    a <= b + d && b <= a + d
  }

  ghost predicate Balanced(t: Tree) {
    match t
    case Nil => true
    case Bin(l, _, r) => Balanced(l) && Balanced(r) && Close(Height(l), Height(r), 1)
  }

  /** No node occurs twice. */
  ghost predicate Distinct(t: Tree) {
    match t
    case Nil => true
    case Bin(l, n, r) =>
      && Distinct(l) && Distinct(r)
      && n !in Nodes(l) && n !in Nodes(r) && Nodes(l) !! Nodes(r)
  }

  // ---- contexts ----

  ghost function Plug(c: Context, t: Tree): Tree {
    match c
    case Top => t
    case Left(up, n, r) => Plug(up, Bin(t, n, r))
    case Right(l, n, up) => Plug(up, Bin(l, n, t))
  }

  ghost function ContextNodes(c: Context): set<AVLNode> {
    match c
    case Top => {}
    case Left(up, n, r) => ContextNodes(up) + {n} + Nodes(r)
    case Right(l, n, up) => Nodes(l) + {n} + ContextNodes(up)
  }

  /** The nodes in front of the hole, in order. */
  ghost function Before(c: Context): seq<AVLNode> {
    match c
    case Top => []
    case Left(up, n, r) => Before(up)
    case Right(l, n, up) => Before(up) + Inorder(l) + [n]
  }

  ghost function After(c: Context): seq<AVLNode> {
    match c
    case Top => []
    case Left(up, n, r) => [n] + Inorder(r) + After(up)
    case Right(l, n, up) => After(up)
  }

  ghost function Depth(c: Context): nat {
    match c
    case Top => 0
    case Left(up, _, _) => 1 + Depth(up)
    case Right(_, _, up) => 1 + Depth(up)
  }

  /** The parent of whatever fills the hole. */
  function Parent(c: Context): AVLNode? {
    if c.Top? then null else c.node
  }

  ghost predicate DistinctContext(c: Context) {
    match c
    case Top => true
    case Left(up, n, r) =>
      && DistinctContext(up) && Distinct(r)
      && n !in ContextNodes(up) && n !in Nodes(r) && Nodes(r) !! ContextNodes(up)
    case Right(l, n, up) =>
      && DistinctContext(up) && Distinct(l)
      && n !in ContextNodes(up) && n !in Nodes(l) && Nodes(l) !! ContextNodes(up)
  }

  lemma {:induction false} PlugInorder(c: Context, t: Tree)
    ensures Inorder(Plug(c, t)) == Before(c) + Inorder(t) + After(c)
  {
    match c
    case Top =>
    case Left(up, n, r) =>
      PlugInorder(up, Bin(t, n, r));
      Reassociate(Before(up), Inorder(t), [n], Inorder(r), After(up));
    case Right(l, n, up) =>
      PlugInorder(up, Bin(l, n, t));
      Reassociate(Before(up), Inorder(l), [n], Inorder(t), After(up));
  }

  lemma Reassociate<T>(a: seq<T>, b: seq<T>, c: seq<T>, d: seq<T>, e: seq<T>)
    ensures a + (b + c + d) + e == a + b + (c + d + e) == (a + b + c) + d + e == (a + b) + c + (d + e)
  {
  }

  lemma {:induction false} PlugNodes(c: Context, t: Tree)
    ensures Nodes(Plug(c, t)) == ContextNodes(c) + Nodes(t)
  {
    match c
    case Top =>
    case Left(up, n, r) => PlugNodes(up, Bin(t, n, r));
    case Right(l, n, up) => PlugNodes(up, Bin(l, n, t));
  }

  lemma {:induction false} PlugDistinct(c: Context, t: Tree)
    ensures Distinct(Plug(c, t)) <==> DistinctContext(c) && Distinct(t) && ContextNodes(c) !! Nodes(t)
  {
    match c
    case Top =>
    case Left(up, n, r) => PlugDistinct(up, Bin(t, n, r));
    case Right(l, n, up) => PlugDistinct(up, Bin(l, n, t));
  }

  lemma {:induction false} PlugHeight(c: Context, t: Tree)
    ensures Depth(c) + Height(t) <= Height(Plug(c, t))
    ensures Balanced(Plug(c, t)) ==> Balanced(t)
  {
    match c
    case Top =>
    case Left(up, n, r) => PlugHeight(up, Bin(t, n, r));
    case Right(l, n, up) => PlugHeight(up, Bin(l, n, t));
  }

  /** The way from the root down to a given node. */
  ghost function Focus(t: Tree, n: AVLNode, up: Context): (r: (Context, Tree))
    requires n in Nodes(t)
    ensures r.1.Bin? && r.1.node == n
    ensures Plug(r.0, r.1) == Plug(up, t)
  {
    if n == t.node then (up, t)
    else if n in Nodes(t.left) then Focus(t.left, n, Left(up, t.node, t.right))
    else Focus(t.right, n, Right(t.left, t.node, up))
  }

  // ---- rebalancing ----

  ghost function RotLeft(t: Tree): Tree
    requires t.Bin? && t.right.Bin?
  {
    Bin(Bin(t.left, t.node, t.right.left), t.right.node, t.right.right)
  }

  ghost function RotRight(t: Tree): Tree
    requires t.Bin? && t.left.Bin?
  {
    Bin(t.left.left, t.left.node, Bin(t.left.right, t.node, t.right))
  }

  ghost function FixLeft(t: Tree): (r: Tree)
    requires t.Bin? && Height(t.left) >= 2
    ensures r.Bin?
  {
    if Height(t.left.left) < Height(t.left.right)
    then RotRight(Bin(RotLeft(t.left), t.node, t.right))
    else RotRight(t)
  }

  ghost function FixRight(t: Tree): (r: Tree)
    requires t.Bin? && Height(t.right) >= 2
    ensures r.Bin?
  {
    if Height(t.right.right) < Height(t.right.left)
    then RotLeft(Bin(t.left, t.node, RotRight(t.right)))
    else RotLeft(t)
  }

  /** One visit of avl_fix(): rebalance when one side is two levels deeper than the other. */
  ghost function FixStep(t: Tree): (r: Tree)
    requires t.Bin?
    ensures r.Bin?
  {
    if Height(t.left) == Height(t.right) + 2 then FixLeft(t)
    else if Height(t.right) == Height(t.left) + 2 then FixRight(t)
    else t
  }

  /** What avl_fix() makes of the tree after the hole of c has been filled with t. */
  ghost function Repair(c: Context, t: Tree): Tree {
    match c
    case Top => t
    case Left(up, n, r) => Repair(up, FixStep(Bin(t, n, r)))
    case Right(l, n, up) => Repair(up, FixStep(Bin(l, n, t)))
  }

  lemma FixStepInorder(t: Tree)
    requires t.Bin?
    ensures Inorder(FixStep(t)) == Inorder(t)
  {
    if Height(t.left) == Height(t.right) + 2 {
      if Height(t.left.left) < Height(t.left.right) {
        RotLeftInorder(t.left);
        RotRightInorder(Bin(RotLeft(t.left), t.node, t.right));
      } else {
        RotRightInorder(t);
      }
    } else if Height(t.right) == Height(t.left) + 2 {
      if Height(t.right.right) < Height(t.right.left) {
        RotRightInorder(t.right);
        RotLeftInorder(Bin(t.left, t.node, RotRight(t.right)));
      } else {
        RotLeftInorder(t);
      }
    }
  }

  lemma RotLeftInorder(t: Tree)
    requires t.Bin? && t.right.Bin?
    ensures Inorder(RotLeft(t)) == Inorder(t)
  {
    Reassociate(Inorder(t.left), [t.node], Inorder(t.right.left), [t.right.node], Inorder(t.right.right));
  }

  lemma RotRightInorder(t: Tree)
    requires t.Bin? && t.left.Bin?
    ensures Inorder(RotRight(t)) == Inorder(t)
  {
    Reassociate(Inorder(t.left.left), [t.left.node], Inorder(t.left.right), [t.node], Inorder(t.right));
  }

  /** Rebalancing moves nodes only: it changes neither their order nor their number. */
  lemma {:induction false} RepairInorder(c: Context, t: Tree)
    ensures Inorder(Repair(c, t)) == Before(c) + Inorder(t) + After(c)
  {
    match c
    case Top =>
    case Left(up, n, r) =>
      FixStepInorder(Bin(t, n, r));
      RepairInorder(up, FixStep(Bin(t, n, r)));
      Reassociate(Before(up), Inorder(t), [n], Inorder(r), After(up));
    case Right(l, n, up) =>
      FixStepInorder(Bin(l, n, t));
      RepairInorder(up, FixStep(Bin(l, n, t)));
      Reassociate(Before(up), Inorder(l), [n], Inorder(t), After(up));
  }

  lemma {:induction false} RotDistinct(t: Tree)
    requires t.Bin? && Distinct(t)
    ensures t.right.Bin? ==> Distinct(RotLeft(t)) && Nodes(RotLeft(t)) == Nodes(t)
    ensures t.left.Bin? ==> Distinct(RotRight(t)) && Nodes(RotRight(t)) == Nodes(t)
  {
  }

  lemma FixStepDistinct(t: Tree)
    requires t.Bin? && Distinct(t)
    ensures Distinct(FixStep(t)) && Nodes(FixStep(t)) == Nodes(t)
  {
    RotDistinct(t);
    if Height(t.left) == Height(t.right) + 2 && Height(t.left.left) < Height(t.left.right) {
      RotDistinct(t.left);
      RotDistinct(Bin(RotLeft(t.left), t.node, t.right));
    } else if Height(t.right) == Height(t.left) + 2 && Height(t.right.right) < Height(t.right.left) {
      RotDistinct(t.right);
      RotDistinct(Bin(t.left, t.node, RotRight(t.right)));
    }
  }

  lemma {:induction false} RepairDistinct(c: Context, t: Tree)
    requires Distinct(t) && DistinctContext(c) && ContextNodes(c) !! Nodes(t)
    ensures Distinct(Repair(c, t)) && Nodes(Repair(c, t)) == ContextNodes(c) + Nodes(t)
  {
    match c
    case Top =>
    case Left(up, n, r) =>
      FixStepDistinct(Bin(t, n, r));
      RepairDistinct(up, FixStep(Bin(t, n, r)));
    case Right(l, n, up) =>
      FixStepDistinct(Bin(l, n, t));
      RepairDistinct(up, FixStep(Bin(l, n, t)));
  }

  lemma FixLeftBalances(t: Tree)
    requires t.Bin? && Balanced(t.left) && Balanced(t.right)
    requires Height(t.left) == Height(t.right) + 2
    ensures Balanced(FixLeft(t))
    ensures Height(t) <= Height(FixLeft(t)) + 1 && Height(FixLeft(t)) <= Height(t)
  {
    var l := t.left;
    assert Height(l.right) <= Height(t.right) + 1;
    if Height(l.left) < Height(l.right) {
      var m := l.right;
      assert FixLeft(t) == Bin(Bin(l.left, l.node, m.left), m.node, Bin(m.right, t.node, t.right));
      assert Balanced(m) && Height(m) == Height(t.right) + 1;
    } else {
      assert FixLeft(t) == Bin(l.left, l.node, Bin(l.right, t.node, t.right));
    }
  }

  lemma FixRightBalances(t: Tree)
    requires t.Bin? && Balanced(t.left) && Balanced(t.right)
    requires Height(t.right) == Height(t.left) + 2
    ensures Balanced(FixRight(t))
    ensures Height(t) <= Height(FixRight(t)) + 1 && Height(FixRight(t)) <= Height(t)
  {
    var r := t.right;
    assert Height(r.left) <= Height(t.left) + 1;
    if Height(r.right) < Height(r.left) {
      var m := r.left;
      assert FixRight(t) == Bin(Bin(t.left, t.node, m.left), m.node, Bin(m.right, r.node, r.right));
      assert Balanced(m) && Height(m) == Height(t.left) + 1;
    } else {
      assert FixRight(t) == Bin(Bin(t.left, t.node, r.left), r.node, r.right);
    }
  }

  /** A node whose children differ by at most two levels is rebalanced, losing at most one level. */
  lemma FixStepBalances(t: Tree)
    requires t.Bin? && Balanced(t.left) && Balanced(t.right)
    requires Close(Height(t.left), Height(t.right), 2)
    ensures Balanced(FixStep(t))
    ensures Height(t) <= Height(FixStep(t)) + 1 && Height(FixStep(t)) <= Height(t)
  {
    if Height(t.left) == Height(t.right) + 2 {
      FixLeftBalances(t);
    } else if Height(t.right) == Height(t.left) + 2 {
      FixRightBalances(t);
    }
  }

  /**
   The invariant behind both insertion and deletion: a subtree s of a balanced tree may be replaced
   by any balanced t at most one level away from it, and the walk to the root restores balance.
   */
  lemma {:induction false} RepairBalances(c: Context, s: Tree, t: Tree)
    requires Balanced(Plug(c, s)) && Balanced(t) && Close(Height(s), Height(t), 1)
    ensures Balanced(Repair(c, t))
  {
    match c
    case Top =>
    case Left(up, n, r) =>
      PlugHeight(up, Bin(s, n, r));
      FixStepBalances(Bin(t, n, r));
      RepairBalances(up, Bin(s, n, r), FixStep(Bin(t, n, r)));
    case Right(l, n, up) =>
      PlugHeight(up, Bin(l, n, s));
      FixStepBalances(Bin(l, n, t));
      RepairBalances(up, Bin(l, n, s), FixStep(Bin(l, n, t)));
  }

  // ---- deletion ----

  /** Detaching the top of s, which has at most one child, from the hole of c. */
  ghost function DetachEasy(c: Context, s: Tree): Tree
    requires s.Bin?
  {
    Repair(c, if s.left.Bin? then s.left else s.right)
  }

  /** The smallest node of t, and the way down to it. */
  ghost function Leftmost(t: Tree, up: Context): (r: (Context, Tree))
    requires t.Bin?
    ensures r.1.Bin? && r.1.left.Nil? && r.1.node in Nodes(t)
    ensures Plug(r.0, r.1) == Plug(up, t) && Before(r.0) == Before(up)
  {
    if t.left.Nil? then (up, t) else Leftmost(t.left, Left(up, t.node, t.right))
  }

  /** The tree t with node v in the place of n. */
  ghost function Substitute(t: Tree, n: AVLNode, v: AVLNode): Tree
    requires n in Nodes(t)
  {
    var (c, s) := Focus(t, n, Top);
    Plug(c, s.(node := v))
  }

  /** What avl_del() makes of the tree t: a node with two children is replaced by its successor. */
  ghost function Delete(t: Tree, n: AVLNode): Tree
    requires n in Nodes(t)
  {
    var (c, s) := Focus(t, n, Top);
    if s.left.Nil? || s.right.Nil? then
      DetachEasy(c, s)
    else
      var (vc, vs) := Leftmost(s.right, Right(s.left, n, c));
      DetachedKeepsNode(vc, vs, n);
      Substitute(DetachEasy(vc, vs), n, vs.node)
  }

  /** The nodes in front of n, in order; their number is the rank of n. */
  ghost function NodesBefore(t: Tree, n: AVLNode): seq<AVLNode>
    requires n in Nodes(t)
  {
    var (c, s) := Focus(t, n, Top);
    Before(c) + Inorder(s.left)
  }

  ghost function NodesAfter(t: Tree, n: AVLNode): seq<AVLNode>
    requires n in Nodes(t)
  {
    var (c, s) := Focus(t, n, Top);
    Inorder(s.right) + After(c)
  }

  lemma SplitAtNode(t: Tree, n: AVLNode)
    requires n in Nodes(t)
    ensures Inorder(t) == NodesBefore(t, n) + [n] + NodesAfter(t, n)
    ensures Distinct(t) ==> n !in NodesBefore(t, n) && n !in NodesAfter(t, n)
  {
    var (c, s) := Focus(t, n, Top);
    SplitContext(c, s);
    if Distinct(t) {
      PlugDistinct(c, s);
      TopNotElsewhere(c, s);
    }
  }

  lemma SplitContext(c: Context, s: Tree)
    requires s.Bin?
    ensures Inorder(Plug(c, s)) == (Before(c) + Inorder(s.left)) + [s.node] + (Inorder(s.right) + After(c))
  {
    PlugInorder(c, s);
    Reassociate(Before(c), Inorder(s.left), [s.node], Inorder(s.right), After(c));
  }

  lemma TopNotElsewhere(c: Context, s: Tree)
    requires s.Bin? && Distinct(s) && ContextNodes(c) !! Nodes(s)
    ensures s.node !in Before(c) + Inorder(s.left) && s.node !in Inorder(s.right) + After(c)
  {
    ContextOrder(c);
    InorderNodes(s.left);
    InorderNodes(s.right);
    assert s.node in Nodes(s);
  }

  lemma {:induction false} ContextOrder(c: Context)
    ensures forall n | n in Before(c) :: n in ContextNodes(c)
    ensures forall n | n in After(c) :: n in ContextNodes(c)
  {
    if !c.Top? {
      ContextOrder(c.up);
      InorderNodes(if c.Left? then c.right else c.left);
    }
  }

  lemma UniqueSplit<T>(a: seq<T>, n: T, b: seq<T>, a': seq<T>, b': seq<T>)
    requires a + [n] + b == a' + [n] + b' && n !in a && n !in b
    ensures a == a' && b == b'
  {
    var s := a + [n] + b;
    assert s[|a'|] == n;
    assert forall i | |a| < i < |s| :: s[i] == b[i - |a| - 1];
    assert a == s[..|a|] && a' == s[..|a'|];
    assert b == s[|a| + 1..] && b' == s[|a'| + 1..];
  }

  lemma DetachEasyInorder(c: Context, s: Tree)
    requires s.Bin? && (s.left.Nil? || s.right.Nil?)
    ensures Inorder(DetachEasy(c, s)) == (Before(c) + Inorder(s.left)) + (Inorder(s.right) + After(c))
  {
    RepairInorder(c, if s.left.Bin? then s.left else s.right);
  }

  lemma DetachedKeepsNode(vc: Context, vs: Tree, n: AVLNode)
    requires vs.Bin? && vs.left.Nil? && n in Before(vc)
    ensures n in Nodes(DetachEasy(vc, vs))
  {
    DetachEasyInorder(vc, vs);
    InorderNodes(DetachEasy(vc, vs));
    assert n in Inorder(DetachEasy(vc, vs));
  }

  lemma DetachEasyBalanced(c: Context, s: Tree)
    requires s.Bin? && (s.left.Nil? || s.right.Nil?) && Balanced(Plug(c, s))
    ensures Balanced(DetachEasy(c, s))
  {
    PlugHeight(c, s);
    RepairBalances(c, s, if s.left.Bin? then s.left else s.right);
  }

  lemma DetachEasyDistinct(c: Context, s: Tree)
    requires s.Bin? && (s.left.Nil? || s.right.Nil?) && Distinct(Plug(c, s))
    ensures Distinct(DetachEasy(c, s)) && Nodes(DetachEasy(c, s)) == Nodes(Plug(c, s)) - {s.node}
  {
    PlugDistinct(c, s);
    PlugNodes(c, s);
    RepairDistinct(c, if s.left.Bin? then s.left else s.right);
  }

  lemma {:induction false} SameHeightPlugs(c: Context, s: Tree, t: Tree)
    requires Balanced(Plug(c, s)) && Balanced(t) && Height(s) == Height(t)
    ensures Balanced(Plug(c, t))
  {
    PlugHeight(c, s);
    match c
    case Top =>
    case Left(up, n, r) => PlugHeight(up, Bin(s, n, r)); SameHeightPlugs(up, Bin(s, n, r), Bin(t, n, r));
    case Right(l, n, up) => PlugHeight(up, Bin(l, n, s)); SameHeightPlugs(up, Bin(l, n, s), Bin(l, n, t));
  }

  /** The newcomer takes over the very place of n. */
  lemma SubstituteInPlace(t: Tree, n: AVLNode, v: AVLNode)
    requires n in Nodes(t)
    ensures Inorder(Substitute(t, n, v)) == NodesBefore(t, n) + [v] + NodesAfter(t, n)
    ensures Balanced(t) ==> Balanced(Substitute(t, n, v))
  {
    var (c, s) := Focus(t, n, Top);
    PlugInorder(c, s.(node := v));
    Reassociate(Before(c), Inorder(s.left), [v], Inorder(s.right), After(c));
    if Balanced(t) {
      PlugHeight(c, s);
      SameHeightPlugs(c, s, s.(node := v));
    }
  }

  lemma SubstituteDistinct(t: Tree, n: AVLNode, v: AVLNode)
    requires n in Nodes(t) && Distinct(t) && v !in Nodes(t)
    ensures Distinct(Substitute(t, n, v)) && Nodes(Substitute(t, n, v)) == Nodes(t) - {n} + {v}
  {
    var (c, s) := Focus(t, n, Top);
    PlugDistinct(c, s);
    PlugNodes(c, s);
    PlugDistinct(c, s.(node := v));
    PlugNodes(c, s.(node := v));
  }

  /** With two children, the successor v leaves its place first and then stands in for n. */
  lemma SuccessorStandsIn(t: Tree, n: AVLNode, vc: Context, vs: Tree)
    requires n in Nodes(t) && Distinct(t) && vs.Bin? && vs.left.Nil?
    requires Plug(vc, vs) == t && Before(vc) == NodesBefore(t, n) + [n]
    ensures n in Nodes(DetachEasy(vc, vs)) && NodesAfter(t, n) == [vs.node] + (Inorder(vs.right) + After(vc))
    ensures NodesBefore(DetachEasy(vc, vs), n) == NodesBefore(t, n)
    ensures NodesAfter(DetachEasy(vc, vs), n) == Inorder(vs.right) + After(vc)
  {
    var r, v := DetachEasy(vc, vs), vs.node;
    var before, rest := NodesBefore(t, n), Inorder(vs.right) + After(vc);
    SplitAtNode(t, n);
    assert NodesAfter(t, n) == [v] + rest by {
      SplitContext(vc, vs);
      assert Before(vc) + Inorder(vs.left) + [v] + rest == before + [n] + ([v] + rest);
      UniqueSplit(before, n, NodesAfter(t, n), before, [v] + rest);
    }
    DetachedKeepsNode(vc, vs, n);
    assert NodesBefore(r, n) == before && NodesAfter(r, n) == rest by {
      DetachEasyInorder(vc, vs);
      assert Before(vc) + Inorder(vs.left) == before + [n];
      SplitAtNode(r, n);
      UniqueSplit(before, n, rest, NodesBefore(r, n), NodesAfter(r, n));
    }
  }

  /**
   Deletion takes exactly the given node out of the order; every other node keeps its identity
   and its place, and the tree stays balanced.
   */
  lemma DeleteIsCorrect(t: Tree, n: AVLNode)
    requires n in Nodes(t) && Distinct(t)
    ensures Inorder(Delete(t, n)) == NodesBefore(t, n) + NodesAfter(t, n)
    ensures Distinct(Delete(t, n)) && Nodes(Delete(t, n)) == Nodes(t) - {n}
    ensures Balanced(t) ==> Balanced(Delete(t, n))
  {
    var (c, s) := Focus(t, n, Top);
    if s.left.Nil? || s.right.Nil? {
      DetachEasyInorder(c, s);
      DetachEasyDistinct(c, s);
      if Balanced(t) {
        DetachEasyBalanced(c, s);
      }
    } else {
      var (vc, vs) := Leftmost(s.right, Right(s.left, n, c));
      assert vs.node != n by {
        PlugDistinct(c, s);
      }
      assert Before(vc) == NodesBefore(t, n) + [n];
      SuccessorStandsIn(t, n, vc, vs);
      StandInIsCorrect(t, n, vc, vs);
      assert Delete(t, n) == Substitute(DetachEasy(vc, vs), n, vs.node);
    }
  }

  lemma StandInIsCorrect(t: Tree, n: AVLNode, vc: Context, vs: Tree)
    requires n in Nodes(t) && Distinct(t) && vs.Bin? && vs.left.Nil? && Plug(vc, vs) == t && vs.node != n
    requires var r := DetachEasy(vc, vs);
             && n in Nodes(r) && NodesBefore(r, n) == NodesBefore(t, n)
             && NodesAfter(t, n) == [vs.node] + NodesAfter(r, n)
    ensures var d := Substitute(DetachEasy(vc, vs), n, vs.node);
            && Inorder(d) == NodesBefore(t, n) + NodesAfter(t, n)
            && Distinct(d) && Nodes(d) == Nodes(t) - {n} && (Balanced(t) ==> Balanced(d))
  {
    var r, v := DetachEasy(vc, vs), vs.node;
    SubstituteInPlace(r, n, v);
    assert NodesBefore(r, n) + [v] + NodesAfter(r, n) == NodesBefore(r, n) + ([v] + NodesAfter(r, n));
    PlugNodes(vc, vs);
    DetachEasyDistinct(vc, vs);
    SubstituteDistinct(r, n, v);
    if Balanced(t) {
      DetachEasyBalanced(vc, vs);
    }
  }

  // ---- height bound ----

  ghost function Fib(n: nat): nat {
    if n < 2 then n else Fib(n - 1) + Fib(n - 2)
  }

  lemma {:induction false} FibMonotonic(a: nat, b: nat)
    requires a <= b
    ensures Fib(a) <= Fib(b)
  {
    if a < b {
      FibMonotonic(a, b - 1);
    }
  }

  lemma SizesAddUp(a: nat, b: nat, m: nat, n: nat)
    requires m + 1 >= Fib(a + 2) && n + 1 >= Fib(b + 2) && Close(a, b, 1)
    ensures 1 + m + n + 1 >= Fib(Max(a, b) + 3)
  {
    var h := Max(a, b);
    FibMonotonic(h + 1, a + 2);
    FibMonotonic(h + 1, b + 2);
    assert Fib(h + 3) == Fib(h + 2) + Fib(h + 1);
  }

  /** A balanced tree of height h holds at least Fib(h + 2) - 1 nodes. */
  lemma {:induction false} SizeAtLeastFib(t: Tree)
    requires Balanced(t)
    ensures Size(t) + 1 >= Fib(Height(t) + 2)
  {
    match t
    case Nil =>
    case Bin(l, _, r) =>
      SizeAtLeastFib(l);
      SizeAtLeastFib(r);
      SizesAddUp(Height(l), Height(r), Size(l), Size(r));
  }
}

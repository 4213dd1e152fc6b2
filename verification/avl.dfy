/** avl.cc: in-place rebalancing, deletion and navigation on nodes linked by parent and child pointers. */
module Avl {
  import opened AvlTree
  import opened Pairs

  /** A size as uint32_t arithmetic leaves it. */
  function Wrap(n: nat): nat {
    if n < UINT32_RANGE then n else Wrap(n - UINT32_RANGE)
  }

  lemma {:induction false} WrapIsModulo(n: nat)
    ensures Wrap(n) == n % UINT32_RANGE
  {
    if n >= UINT32_RANGE {
      WrapIsModulo(n - UINT32_RANGE);
    }
  }

  function AvlHeight(node: AVLNode?): nat
    reads node
  {
    if node == null then 0 else node.height
  }

  /** avl_size() narrows the stored size_t to uint32_t. */
  function AvlSize(node: AVLNode?): nat
    reads node
  {
    if node == null then 0 else Wrap(node.size)
  }

  // ---- what the heap holds ----

  datatype Cell = Cell(parent: AVLNode?, left: AVLNode?, right: AVLNode?, height: nat, size: nat)

  type Memory = map<AVLNode, Cell>

  ghost function Snapshot(S: set<AVLNode>): (m: Memory)
    reads S
  {
    map n | n in S :: Cell(n.parent, n.left, n.right, n.height, n.size)
  }

  /** The cell of the top node of t when t hangs below p. */
  ghost function TopCell(t: Tree, p: AVLNode?): Cell
    requires t.Bin?
  {
    Cell(p, Root(t.left), Root(t.right), Height(t), Wrap(Size(t)))
  }

  /** m holds the tree t below p: links, heights and sizes. */
  ghost predicate IsTree(m: Memory, t: Tree, p: AVLNode?)
  {
    t.Bin? ==>
      && t.node in m && m[t.node] == TopCell(t, p)
      && IsTree(m, t.left, t.node) && IsTree(m, t.right, t.node)
  }

  /** As IsTree, but the height and size stored at the top node may be out of date. */
  ghost predicate IsLinked(m: Memory, t: Tree, p: AVLNode?)
    requires t.Bin?
  {
    && t.node in m && m[t.node].(height := 0, size := 0) == TopCell(t, p).(height := 0, size := 0)
    && IsTree(m, t.left, t.node) && IsTree(m, t.right, t.node)
  }

  /** m holds the context c around a hole filled by `hole`; its heights and sizes may be out of date. */
  ghost predicate IsContext(m: Memory, c: Context, hole: AVLNode?)
  {
    match c
    case Top => true
    case Left(up, n, r) =>
      && n in m && m[n].left == hole && m[n].right == Root(r) && m[n].parent == Parent(up)
      && IsTree(m, r, n) && IsContext(m, up, n)
    case Right(l, n, up) =>
      && n in m && m[n].right == hole && m[n].left == Root(l) && m[n].parent == Parent(up)
      && IsTree(m, l, n) && IsContext(m, up, n)
  }

  ghost predicate Agree(m: Memory, m': Memory, S: set<AVLNode>) {
    forall n | n in S :: n in m && n in m' && m'[n] == m[n]
  }

  lemma {:induction false} TreeFrame(m: Memory, m': Memory, t: Tree, p: AVLNode?)
    requires IsTree(m, t, p)
    requires forall n | n in Nodes(t) && n in m :: n in m' && m'[n] == m[n]
    ensures IsTree(m', t, p)
  {
    if t.Bin? {
      TreeFrame(m, m', t.left, t.node);
      TreeFrame(m, m', t.right, t.node);
    }
  }

  lemma {:induction false} ContextFrame(m: Memory, m': Memory, c: Context, hole: AVLNode?)
    requires IsContext(m, c, hole)
    requires forall n | n in ContextNodes(c) && n in m :: n in m' && m'[n] == m[n]
    ensures IsContext(m', c, hole)
  {
    match c
    case Top =>
    case Left(up, n, r) => TreeFrame(m, m', r, n); ContextFrame(m, m', up, n);
    case Right(l, n, up) => TreeFrame(m, m', l, n); ContextFrame(m, m', up, n);
  }

  lemma TreeReparent(m: Memory, m': Memory, t: Tree, p: AVLNode?, q: AVLNode?)
    requires t.Bin? && Distinct(t) && IsTree(m, t, p)
    requires t.node in m' && m'[t.node] == m[t.node].(parent := q)
    requires forall n | n in Nodes(t) && n in m && n != t.node :: n in m' && m'[n] == m[n]
    ensures IsTree(m', t, q)
  {
    TreeFrame(m, m', t.left, t.node);
    TreeFrame(m, m', t.right, t.node);
  }

  ghost function HeightIn(m: Memory, n: AVLNode?): nat {
    if n == null || n !in m then 0 else m[n].height
  }

  ghost function SizeIn(m: Memory, n: AVLNode?): nat {
    if n == null || n !in m then 0 else Wrap(m[n].size)
  }

  ghost predicate UpToDate(m: Memory, n: AVLNode)
    requires n in m
  {
    && m[n].height == 1 + Max(HeightIn(m, m[n].left), HeightIn(m, m[n].right))
    && m[n].size == Wrap(1 + SizeIn(m, m[n].left) + SizeIn(m, m[n].right))
  }

  lemma WrapSum(a: nat, b: nat)
    ensures Wrap(1 + Wrap(a) + Wrap(b)) == Wrap(1 + a + b)
    ensures Wrap(Wrap(a)) == Wrap(a) && Wrap(Wrap(b)) == Wrap(b)
  {
    WrapIsModulo(a);
    WrapIsModulo(b);
    WrapIsModulo(1 + Wrap(a) + Wrap(b));
    WrapIsModulo(1 + a + b);
  }

  /** A node with correct links and an up-to-date height and size completes the tree above its children. */
  lemma UpToDateIsTree(m: Memory, t: Tree, p: AVLNode?)
    requires t.Bin? && IsLinked(m, t, p) && UpToDate(m, t.node)
    ensures IsTree(m, t, p)
  {
    WrapSum(Size(t.left), Size(t.right));
    TopIsKnown(m, t.left, t.node);
    TopIsKnown(m, t.right, t.node);
  }

  lemma TopIsKnown(m: Memory, t: Tree, p: AVLNode?)
    requires IsTree(m, t, p)
    ensures HeightIn(m, Root(t)) == Height(t) && SizeIn(m, Root(t)) == Wrap(Wrap(Size(t)))
  {
  }

  // ---- rotations ----

  /** Brings the height and the size of a node up to date. */
  method AvlUpdate(node: AVLNode)
    requires node.left != node && node.right != node
    modifies node`height, node`size
    ensures node.height == 1 + Max(AvlHeight(node.left), AvlHeight(node.right))
    ensures node.size == Wrap(1 + AvlSize(node.left) + AvlSize(node.right))
  {
    node.height := 1 + Max(AvlHeight(node.left), AvlHeight(node.right));
    node.size := Wrap(1 + AvlSize(node.left) + AvlSize(node.right));
  }

  ghost function Links(c: Cell): Cell {
    c.(height := 0, size := 0)
  }

  ghost predicate Has(m: Memory, n: AVLNode?) {
    n == null || n in m
  }

  /** The cells rot_left(x) touches and reads are there, and are different cells. */
  ghost predicate CanRotateLeft(m: Memory, x: AVLNode) {
    && x in m && m[x].right != null && m[x].right in m
    && var y, a := m[x].right, m[x].left;
    && var b, c := m[y].left, m[y].right;
    && x != y && b !in {x, y} && a !in {x, y} && c !in {x, y}
    && (b != null ==> a != b && c != b)
    && Has(m, a) && Has(m, b) && Has(m, c)
  }

  /** y was the right child of x and is now its parent; b moved from the left of y to the right of x. */
  ghost predicate RotatedLeft(m: Memory, m': Memory, x: AVLNode, y: AVLNode, b: AVLNode?) {
    && x in m && y in m && x in m' && y in m'
    && Links(m'[x]) == Links(m[x].(parent := y, right := b))
    && Links(m'[y]) == Links(m[y].(parent := m[x].parent, left := x))
    && (b != null && b in m ==> b in m' && m'[b] == m[b].(parent := x))
    && UpToDate(m', x) && UpToDate(m', y)
    && forall n | n in m && n != x && n != y && n != b :: n in m' && m'[n] == m[n]
  }

  method RelinkLeft(node: AVLNode, ghost S: set<AVLNode>) returns (newNode: AVLNode)
    requires CanRotateLeft(Snapshot(S), node)
    modifies node, node.right, node.right.left
    ensures newNode == old(node.right)
    ensures RotatedLeft(old(Snapshot(S)), Snapshot(S), node, newNode, old(node.right.left))
  {
    hide Wrap, AvlTree.Height, AvlTree.Size, IsTree, AvlTree.Nodes, AvlTree.Distinct;
    var parent := node.parent;
    newNode := node.right;
    var inner := newNode.left;
    node.right := inner;
    if inner != null {
      inner.parent := node;
    }
    newNode.parent := parent;
    newNode.left := node;
    node.parent := newNode;
    AvlUpdate(node);
    AvlUpdate(newNode);
    assert UpToDate(Snapshot(S), node) && UpToDate(Snapshot(S), newNode);
    assert forall n | n in S && n != node && n != newNode && n != inner :: Snapshot(S)[n] == old(Snapshot(S))[n];
  }

  lemma RotLeftPossible(m: Memory, t: Tree, p: AVLNode?)
    requires t.Bin? && t.right.Bin? && Distinct(t) && IsLinked(m, t, p)
    ensures CanRotateLeft(m, t.node) && m[t.node].right == t.right.node && m[t.right.node].left == Root(t.right.left)
  {
    assert Root(t.left) != null ==> Root(t.left) in Nodes(t.left);
    assert Root(t.right.left) != null ==> Root(t.right.left) in Nodes(t.right.left);
    assert Root(t.right.right) != null ==> Root(t.right.right) in Nodes(t.right.right);
    assert IsTree(m, t.right.left, t.right.node) && IsTree(m, t.right.right, t.right.node);
  }

  lemma RotatedLeftIsTree(m: Memory, m': Memory, t: Tree, p: AVLNode?)
    requires t.Bin? && t.right.Bin? && Distinct(t) && IsLinked(m, t, p)
    requires RotatedLeft(m, m', t.node, t.right.node, Root(t.right.left))
    ensures IsTree(m', RotLeft(t), p)
  {
    var x, y := t.node, t.right.node;
    assert Root(t.right.left) != null ==> Root(t.right.left) in Nodes(t.right.left);
    TreeFrame(m, m', t.left, x);
    if t.right.left.Bin? {
      TreeReparent(m, m', t.right.left, y, x);
    }
    TreeFrame(m, m', t.right.right, y);
    UpToDateIsTree(m', RotLeft(t).left, y);
    UpToDateIsTree(m', RotLeft(t), p);
  }

  /** The cells rot_right(x) touches and reads are there, and are different cells. */
  ghost predicate CanRotateRight(m: Memory, x: AVLNode) {
    && x in m && m[x].left != null && m[x].left in m
    && var y, a := m[x].left, m[x].right;
    && var b, c := m[y].right, m[y].left;
    && x != y && b !in {x, y} && a !in {x, y} && c !in {x, y}
    && (b != null ==> a != b && c != b)
    && Has(m, a) && Has(m, b) && Has(m, c)
  }

  /** y was the left child of x and is now its parent; b moved from the right of y to the left of x. */
  ghost predicate RotatedRight(m: Memory, m': Memory, x: AVLNode, y: AVLNode, b: AVLNode?) {
    && x in m && y in m && x in m' && y in m'
    && Links(m'[x]) == Links(m[x].(parent := y, left := b))
    && Links(m'[y]) == Links(m[y].(parent := m[x].parent, right := x))
    && (b != null && b in m ==> b in m' && m'[b] == m[b].(parent := x))
    && UpToDate(m', x) && UpToDate(m', y)
    && forall n | n in m && n != x && n != y && n != b :: n in m' && m'[n] == m[n]
  }

  method RelinkRight(node: AVLNode, ghost S: set<AVLNode>) returns (newNode: AVLNode)
    requires CanRotateRight(Snapshot(S), node)
    modifies node, node.left, node.left.right
    ensures newNode == old(node.left)
    ensures RotatedRight(old(Snapshot(S)), Snapshot(S), node, newNode, old(node.left.right))
  {
    hide Wrap, AvlTree.Height, AvlTree.Size, IsTree, AvlTree.Nodes, AvlTree.Distinct;
    var parent := node.parent;
    newNode := node.left;
    var inner := newNode.right;
    node.left := inner;
    if inner != null {
      inner.parent := node;
    }
    newNode.parent := parent;
    newNode.right := node;
    node.parent := newNode;
    AvlUpdate(node);
    AvlUpdate(newNode);
    assert UpToDate(Snapshot(S), node) && UpToDate(Snapshot(S), newNode);
    assert forall n | n in S && n != node && n != newNode && n != inner :: Snapshot(S)[n] == old(Snapshot(S))[n];
  }

  lemma RotRightPossible(m: Memory, t: Tree, p: AVLNode?)
    requires t.Bin? && t.left.Bin? && Distinct(t) && IsLinked(m, t, p)
    ensures CanRotateRight(m, t.node) && m[t.node].left == t.left.node && m[t.left.node].right == Root(t.left.right)
  {
    assert Root(t.right) != null ==> Root(t.right) in Nodes(t.right);
    assert Root(t.left.right) != null ==> Root(t.left.right) in Nodes(t.left.right);
    assert Root(t.left.left) != null ==> Root(t.left.left) in Nodes(t.left.left);
    assert IsTree(m, t.left.right, t.left.node) && IsTree(m, t.left.left, t.left.node);
  }

  lemma RotatedRightIsTree(m: Memory, m': Memory, t: Tree, p: AVLNode?)
    requires t.Bin? && t.left.Bin? && Distinct(t) && IsLinked(m, t, p)
    requires RotatedRight(m, m', t.node, t.left.node, Root(t.left.right))
    ensures IsTree(m', RotRight(t), p)
  {
    var x, y := t.node, t.left.node;
    assert Root(t.left.right) != null ==> Root(t.left.right) in Nodes(t.left.right);
    TreeFrame(m, m', t.right, x);
    if t.left.right.Bin? {
      TreeReparent(m, m', t.left.right, y, x);
    }
    TreeFrame(m, m', t.left.left, y);
    UpToDateIsTree(m', RotRight(t).right, y);
    UpToDateIsTree(m', RotRight(t), p);
  }

  /** rot_left(): the new top keeps the parent of the old one, whose child pointer is left to the caller. */
  method RotateLeft(node: AVLNode, ghost S: set<AVLNode>, ghost t: Tree) returns (newNode: AVLNode)
    requires t.Bin? && t.right.Bin? && t.node == node && Distinct(t) && Nodes(t) <= S
    requires IsLinked(Snapshot(S), t, node.parent)
    modifies Nodes(t)
    ensures newNode == Root(RotLeft(t)) && IsTree(Snapshot(S), RotLeft(t), old(node.parent))
    ensures Agree(old(Snapshot(S)), Snapshot(S), S - Nodes(t))
  {
    ghost var m, p := Snapshot(S), node.parent;
    RotLeftPossible(m, t, p);
    assert t.right.left.Bin? ==> t.right.left.node in Nodes(t.right.left);
    newNode := RelinkLeft(node, S);
    RotatedLeftIsTree(m, Snapshot(S), t, p);
  }

  /** rot_right(): the new top keeps the parent of the old one, whose child pointer is left to the caller. */
  method RotateRight(node: AVLNode, ghost S: set<AVLNode>, ghost t: Tree) returns (newNode: AVLNode)
    requires t.Bin? && t.left.Bin? && t.node == node && Distinct(t) && Nodes(t) <= S
    requires IsLinked(Snapshot(S), t, node.parent)
    modifies Nodes(t)
    ensures newNode == Root(RotRight(t)) && IsTree(Snapshot(S), RotRight(t), old(node.parent))
    ensures Agree(old(Snapshot(S)), Snapshot(S), S - Nodes(t))
  {
    ghost var m, p := Snapshot(S), node.parent;
    RotRightPossible(m, t, p);
    assert t.left.right.Bin? ==> t.left.right.node in Nodes(t.left.right);
    newNode := RelinkRight(node, S);
    RotatedRightIsTree(m, Snapshot(S), t, p);
  }

  /** The RL case of avl_fix_right(): node->right = rot_right(node->right). */
  method RotateRightChild(node: AVLNode, ghost S: set<AVLNode>, ghost t: Tree)
    requires t.Bin? && t.right.Bin? && t.right.left.Bin? && t.node == node && Distinct(t) && Nodes(t) <= S
    requires IsLinked(Snapshot(S), t, node.parent)
    modifies Nodes(t)
    ensures IsLinked(Snapshot(S), t.(right := RotRight(t.right)), node.parent) && node.parent == old(node.parent)
    ensures Agree(old(Snapshot(S)), Snapshot(S), S - Nodes(t))
  {
    hide AvlTree.Height, AvlTree.Size, Wrap, Inorder;
    ghost var m := Snapshot(S);
    RotDistinct(t.right);
    var inner := RotateRight(node.right, S, t.right);
    ghost var m1 := Snapshot(S);
    node.right := inner;
    TreeFrame(m, Snapshot(S), t.left, node);
    TreeFrame(m1, Snapshot(S), RotRight(t.right), node);
  }

  /** avl_fix_right(): the right side is two levels deeper (RR or RL). */
  method AvlFixRight(node: AVLNode, ghost S: set<AVLNode>, ghost t: Tree) returns (newNode: AVLNode)
    requires t.Bin? && t.node == node && Distinct(t) && Nodes(t) <= S && Height(t.right) >= 2
    requires IsLinked(Snapshot(S), t, node.parent)
    modifies Nodes(t)
    ensures newNode == Root(FixRight(t)) && IsTree(Snapshot(S), FixRight(t), old(node.parent))
    ensures Agree(old(Snapshot(S)), Snapshot(S), S - Nodes(t))
  {
    ghost var u := t;
    TopIsKnown(Snapshot(S), t.right.left, t.right.node);
    TopIsKnown(Snapshot(S), t.right.right, t.right.node);
    if AvlHeight(node.right.right) < AvlHeight(node.right.left) {
      RotateRightChild(node, S, t);
      RotDistinct(t.right);
      u := t.(right := RotRight(t.right));
    }
    newNode := RotateLeft(node, S, u);
  }

  /** The LR case of avl_fix_left(): node->left = rot_left(node->left). */
  method RotateLeftChild(node: AVLNode, ghost S: set<AVLNode>, ghost t: Tree)
    requires t.Bin? && t.left.Bin? && t.left.right.Bin? && t.node == node && Distinct(t) && Nodes(t) <= S
    requires IsLinked(Snapshot(S), t, node.parent)
    modifies Nodes(t)
    ensures IsLinked(Snapshot(S), t.(left := RotLeft(t.left)), node.parent) && node.parent == old(node.parent)
    ensures Agree(old(Snapshot(S)), Snapshot(S), S - Nodes(t))
  {
    hide AvlTree.Height, AvlTree.Size, Wrap, Inorder;
    ghost var m := Snapshot(S);
    RotDistinct(t.left);
    var inner := RotateLeft(node.left, S, t.left);
    ghost var m1 := Snapshot(S);
    node.left := inner;
    TreeFrame(m, Snapshot(S), t.right, node);
    TreeFrame(m1, Snapshot(S), RotLeft(t.left), node);
  }

  /** avl_fix_left(): the left side is two levels deeper (LL or LR). */
  method AvlFixLeft(node: AVLNode, ghost S: set<AVLNode>, ghost t: Tree) returns (newNode: AVLNode)
    requires t.Bin? && t.node == node && Distinct(t) && Nodes(t) <= S && Height(t.left) >= 2
    requires IsLinked(Snapshot(S), t, node.parent)
    modifies Nodes(t)
    ensures newNode == Root(FixLeft(t)) && IsTree(Snapshot(S), FixLeft(t), old(node.parent))
    ensures Agree(old(Snapshot(S)), Snapshot(S), S - Nodes(t))
  {
    ghost var u := t;
    TopIsKnown(Snapshot(S), t.left.right, t.left.node);
    TopIsKnown(Snapshot(S), t.left.left, t.left.node);
    if AvlHeight(node.left.left) < AvlHeight(node.left.right) {
      RotateLeftChild(node, S, t);
      RotDistinct(t.left);
      u := t.(left := RotLeft(t.left));
    }
    newNode := RotateRight(node, S, u);
  }

  // ---- avl_fix ----

  /** avl_update() on the top of a linked tree. */
  method RefreshNode(node: AVLNode, ghost S: set<AVLNode>, ghost t: Tree)
    requires t.Bin? && t.node == node && Distinct(t) && Nodes(t) <= S
    requires IsLinked(Snapshot(S), t, node.parent)
    modifies node
    ensures IsTree(Snapshot(S), t, node.parent) && node.parent == old(node.parent)
    ensures Agree(old(Snapshot(S)), Snapshot(S), S - Nodes(t))
  {
    hide Wrap, Inorder, AvlTree.Size;
    ghost var m := Snapshot(S);
    LinkedNodeIsNoChild(m, t, node.parent);
    AvlUpdate(node);
    TreeFrame(m, Snapshot(S), t.left, node);
    TreeFrame(m, Snapshot(S), t.right, node);
    UpToDateIsTree(Snapshot(S), t, node.parent);
  }

  /** One visit of avl_fix(): bring the node up to date, then repair a height difference of 2. */
  method AvlFixNode(node: AVLNode, ghost S: set<AVLNode>, ghost t: Tree) returns (top: AVLNode)
    requires t.Bin? && t.node == node && Distinct(t) && Nodes(t) <= S
    requires IsLinked(Snapshot(S), t, node.parent)
    modifies Nodes(t)
    ensures top == Root(FixStep(t)) && IsTree(Snapshot(S), FixStep(t), old(node.parent))
    ensures Agree(old(Snapshot(S)), Snapshot(S), S - Nodes(t))
  {
    hide Wrap, AvlTree.Size, Inorder, FixLeft, FixRight;
    RefreshNode(node, S, t);
    TopIsKnown(Snapshot(S), t.left, node);
    TopIsKnown(Snapshot(S), t.right, node);
    var lh := AvlHeight(node.left);
    var rh := AvlHeight(node.right);
    top := node;
    if lh == rh + 2 {
      top := AvlFixLeft(node, S, t);
    } else if rh == lh + 2 {
      top := AvlFixRight(node, S, t);
    }
  }

  lemma LinkedNodeIsNoChild(m: Memory, t: Tree, p: AVLNode?)
    requires t.Bin? && Distinct(t) && IsLinked(m, t, p)
    ensures Has(m, Root(t.left)) && Has(m, Root(t.right))
    ensures m[t.node].left != t.node && m[t.node].right != t.node
  {
  }

  /** The subtree t, whose top may be out of date, fills the hole of c; together they use the nodes S. */
  ghost predicate Climbing(m: Memory, S: set<AVLNode>, c: Context, t: Tree) {
    && t.Bin? && Distinct(t) && DistinctContext(c) && ContextNodes(c) !! Nodes(t)
    && S == ContextNodes(c) + Nodes(t)
    && IsLinked(m, t, Parent(c)) && IsContext(m, c, t.node)
  }

  /** The tree above the hole of c, once the hole is filled with t. */
  ghost function Above(c: Context, t: Tree): Tree
    requires !c.Top?
  {
    if c.Left? then Bin(t, c.node, c.right) else Bin(c.left, c.node, t)
  }

  ghost predicate ChildReplaced(m: Memory, m': Memory, c: Context, top: AVLNode?)
    requires !c.Top?
  {
    && c.node in m && c.node in m' && m'[c.node].parent == m[c.node].parent
    && (if c.Left? then m'[c.node].left == top && m'[c.node].right == m[c.node].right
        else m'[c.node].right == top && m'[c.node].left == m[c.node].left)
    && forall n | n in m && n != c.node :: n in m' && m'[n] == m[n]
  }

  /** Attaching the repaired subtree to the parent leaves the walk one level further up. */
  lemma ClimbStep(m: Memory, m1: Memory, m2: Memory, S: set<AVLNode>, c: Context, t: Tree)
    requires Climbing(m, S, c, t) && !c.Top?
    requires IsTree(m1, FixStep(t), c.node) && Agree(m, m1, S - Nodes(t))
    requires ChildReplaced(m1, m2, c, Root(FixStep(t)))
    ensures Climbing(m2, S, c.up, Above(c, FixStep(t)))
  {
    FixStepDistinct(t);
    TreeFrame(m1, m2, FixStep(t), c.node);
    TreeFrame(m, m2, if c.Left? then c.right else c.left, c.node);
    ContextFrame(m, m2, c.up, c.node);
  }

  lemma ParentSide(m: Memory, S: set<AVLNode>, c: Context, t: Tree)
    requires Climbing(m, S, c, t) && !c.Top?
    ensures c.node in S && c.node in m && (m[c.node].left == t.node <==> c.Left?)
    ensures m[t.node].parent == c.node
  {
    assert c.Right? && c.left.Bin? ==> c.left.node in Nodes(c.left);
  }

  /** One round of the loop of avl_fix() below the root: repair the node and attach it to its parent. */
  method FixAndAttach(node: AVLNode, parent: AVLNode, ghost S: set<AVLNode>, ghost c: Context, ghost t: Tree)
    requires Climbing(Snapshot(S), S, c, t) && t.node == node && !c.Top? && c.node == parent
    modifies S
    ensures Climbing(Snapshot(S), S, c.up, Above(c, FixStep(t)))
  {
    ghost var m := Snapshot(S);
    ParentSide(m, S, c, t);
    var isLeft := parent.left == node;
    var top := AvlFixNode(node, S, t);
    ghost var m1 := Snapshot(S);
    if isLeft {
      parent.left := top;
    } else {
      parent.right := top;
    }
    assert ChildReplaced(m1, Snapshot(S), c, Root(FixStep(t)));
    ClimbStep(m, m1, Snapshot(S), S, c, t);
  }

  /**
   avl_fix(): attaches every repaired subtree to its parent and moves up until the root is reached.
   The start node is linked to its parent, but heights and sizes may be out of date from there to the root.
   */
  method AvlFix(start: AVLNode, ghost S: set<AVLNode>, ghost c0: Context, ghost t0: Tree) returns (root: AVLNode)
    requires t0.Bin? && t0.node == start && Climbing(Snapshot(S), S, c0, t0)
    modifies S
    ensures root == Root(Repair(c0, FixStep(t0)))
    ensures IsTree(Snapshot(S), Repair(c0, FixStep(t0)), null)
  {
    var node := start;
    ghost var c, t := c0, t0;
    while node.parent != null
      invariant Climbing(Snapshot(S), S, c, t) && t.node == node
      invariant Repair(c, FixStep(t)) == Repair(c0, FixStep(t0))
      decreases c
    {
      var parent := node.parent;
      FixAndAttach(node, parent, S, c, t);
      t := Above(c, FixStep(t));
      c := c.up;
      node := parent;
    }
    root := AvlFixNode(node, S, t);
  }

  // ---- avl_del ----

  lemma {:induction false} TreeSplit(m: Memory, c: Context, t: Tree)
    requires IsTree(m, Plug(c, t), null)
    ensures IsTree(m, t, Parent(c)) && IsContext(m, c, Root(t))
  {
    match c
    case Top =>
    case Left(up, n, r) => TreeSplit(m, up, Bin(t, n, r));
    case Right(l, n, up) => TreeSplit(m, up, Bin(l, n, t));
  }

  /** m and m' agree on the nodes of c, except that the hole holds `top` in m'. */
  ghost predicate HoleReplaced(m: Memory, m': Memory, c: Context, top: AVLNode?) {
    !c.Top? ==>
      && c.node in m && c.node in m'
      && m'[c.node] == (if c.Left? then m[c.node].(left := top) else m[c.node].(right := top))
      && forall n | n in ContextNodes(c) && n != c.node && n in m :: n in m' && m'[n] == m[n]
  }

  /** The parent of an exchanged subtree holds its new tree. */
  lemma ParentOfExchanged(m: Memory, m': Memory, c: Context, s: Tree, t: Tree)
    requires !c.Top? && IsTree(m, Above(c, s), Parent(c.up)) && IsTree(m', t, Parent(c)) && DistinctContext(c)
    requires Height(s) == Height(t) && Size(s) == Size(t) && HoleReplaced(m, m', c, Root(t))
    ensures IsTree(m', Above(c, t), Parent(c.up))
    ensures Height(Above(c, s)) == Height(Above(c, t)) && Size(Above(c, s)) == Size(Above(c, t))
  {
    hide Wrap, Inorder;
    TreeFrame(m, m', if c.Left? then c.right else c.left, c.node);
  }

  lemma DistinctAbove(c: Context)
    requires DistinctContext(c) && !c.Top?
    ensures DistinctContext(c.up)
  {
  }

  /** Nothing else changes above it. */
  lemma HoleAbove(m: Memory, m': Memory, c: Context, s: Tree, top: AVLNode?)
    requires !c.Top? && IsContext(m, c.up, c.node) && DistinctContext(c) && HoleReplaced(m, m', c, top)
    ensures HoleReplaced(m, m', c.up, c.node)
  {
    hide Wrap, Inorder, IsTree;
    HoleUnchanged(m, m', c.up, c.node);
  }

  /** A subtree may be exchanged for one of the same height and size without touching its ancestors. */
  lemma {:induction false} SubtreeExchanged(m: Memory, m': Memory, c: Context, s: Tree, t: Tree)
    requires IsTree(m, Plug(c, s), null) && IsTree(m', t, Parent(c)) && DistinctContext(c)
    requires Height(s) == Height(t) && Size(s) == Size(t) && HoleReplaced(m, m', c, Root(t))
    ensures IsTree(m', Plug(c, t), null)
  {
    hide IsTree, HoleReplaced, AvlTree.Height, AvlTree.Size, IsContext, DistinctContext;
    if !c.Top? {
      TreeSplit(m, c.up, Above(c, s));
      ParentOfExchanged(m, m', c, s, t);
      HoleAbove(m, m', c, s, Root(t));
      DistinctAbove(c);
      SubtreeExchanged(m, m', c.up, Above(c, s), Above(c, t));
    }
  }

  lemma HoleUnchanged(m: Memory, m': Memory, c: Context, hole: AVLNode)
    requires IsContext(m, c, hole)
    requires forall n | n in ContextNodes(c) && n in m :: n in m' && m'[n] == m[n]
    ensures HoleReplaced(m, m', c, hole)
  {
  }

  /** The node s.node has been unlinked: its only child, if any, hangs below its parent. */
  ghost predicate Unlinked(m: Memory, m': Memory, c: Context, s: Tree, child: Tree) {
    && (child.Bin? ==> child.node in m && child.node in m' && m'[child.node] == m[child.node].(parent := Parent(c)))
    && (!c.Top? ==> ChildOnly(m, m', c, Root(child)))
    && forall n | n in m && n != Root(child) && n != Parent(c) :: n in m' && m'[n] == m[n]
  }

  ghost predicate ChildOnly(m: Memory, m': Memory, c: Context, top: AVLNode?)
    requires !c.Top?
  {
    && c.node in m && c.node in m' && m'[c.node].parent == m[c.node].parent
    && (if c.Left? then m'[c.node].left == top && m'[c.node].right == m[c.node].right
        else m'[c.node].right == top && m'[c.node].left == m[c.node].left)
  }

  lemma UnlinkedIsTree(m: Memory, m': Memory, c: Context, s: Tree, child: Tree)
    requires s.Bin? && Distinct(Plug(c, s)) && IsTree(m, Plug(c, s), null)
    requires child == if s.left.Bin? then s.left else s.right
    requires Unlinked(m, m', c, s, child)
    ensures IsTree(m', child, Parent(c))
  {
    PlugDistinct(c, s);
    TreeSplit(m, c, s);
    if child.Bin? {
      assert !c.Top? ==> c.node in ContextNodes(c);
      TreeReparent(m, m', child, s.node, Parent(c));
    }
  }

  lemma DetachedDistinct(c: Context, s: Tree, child: Tree)
    requires s.Bin? && Distinct(Plug(c, s)) && !c.Top?
    requires child == (if s.left.Bin? then s.left else s.right) && (s.left.Nil? || s.right.Nil?)
    ensures Distinct(Above(c, child)) && DistinctContext(c.up) && ContextNodes(c.up) !! Nodes(Above(c, child))
    ensures Nodes(Plug(c, s)) - {s.node} == ContextNodes(c.up) + Nodes(Above(c, child))
  {
    PlugDistinct(c, s);
    PlugNodes(c, s);
  }

  lemma UnlinkedClimbs(m: Memory, m': Memory, c: Context, s: Tree, child: Tree)
    requires s.Bin? && Distinct(Plug(c, s)) && IsTree(m, Plug(c, s), null) && !c.Top?
    requires child == (if s.left.Bin? then s.left else s.right) && (s.left.Nil? || s.right.Nil?)
    requires Unlinked(m, m', c, s, child)
    ensures Climbing(m', Nodes(Plug(c, s)) - {s.node}, c.up, Above(c, child))
  {
    hide Wrap, AvlTree.Size, AvlTree.Height, Inorder;
    DetachedDistinct(c, s, child);
    TreeSplit(m, c, s);
    UnlinkedIsTree(m, m', c, s, child);
    var sibling := if c.Left? then c.right else c.left;
    assert Root(child) !in Nodes(sibling) && Root(child) !in ContextNodes(c.up) by {
      PlugDistinct(c, s);
      assert child.Bin? ==> child.node in Nodes(child);
    }
    assert c.node !in Nodes(sibling) && c.node !in ContextNodes(c.up);
    TreeFrame(m, m', sibling, c.node);
    ContextFrame(m, m', c.up, c.node);
  }

  lemma UnlinkFacts(m: Memory, c: Context, t: Tree, child: Tree)
    requires t.Bin? && Distinct(Plug(c, t)) && IsTree(m, Plug(c, t), null)
    requires child == if t.left.Bin? then t.left else t.right
    ensures t.node in m && m[t.node] == TopCell(t, Parent(c))
    ensures child.Bin? ==> child.node in m && child.node != Parent(c)
    ensures !c.Top? ==> c.node in m && (m[c.node].left == t.node <==> c.Left?)
    ensures c.Right? ==> m[c.node].right == t.node
  {
    PlugDistinct(c, t);
    TreeSplit(m, c, t);
    assert t.node in Nodes(t);
    assert child.Bin? ==> child.node in Nodes(t);
    assert !c.Top? ==> c.node in ContextNodes(c);
    assert c.Right? && c.left.Bin? ==> c.left.node in ContextNodes(c);
  }

  /** The first half of avl_del_easy(): links the only child to the parent. */
  method Unlink(node: AVLNode, ghost S: set<AVLNode>, ghost c: Context, ghost t: Tree,
                ghost childTree: Tree) returns (child: AVLNode?)
    requires t.Bin? && t.node == node && (t.left.Nil? || t.right.Nil?)
    requires childTree == if t.left.Bin? then t.left else t.right
    requires Distinct(Plug(c, t)) && IsTree(Snapshot(S), Plug(c, t), null)
    modifies S
    ensures child == Root(childTree) && Unlinked(old(Snapshot(S)), Snapshot(S), c, t, childTree)
  {
    UnlinkFacts(Snapshot(S), c, t, childTree);
    child := if node.left != null then node.left else node.right;
    var parent := node.parent;
    if child != null {
      child.parent := parent;
    }
    if parent != null {
      if parent.left == node {
        parent.left := child;
      } else {
        parent.right := child;
      }
    }
  }

  /** avl_del_easy(): detaches a node with at most one child and returns the new root. */
  method AvlDelEasy(node: AVLNode, ghost S: set<AVLNode>, ghost c: Context, ghost t: Tree) returns (root: AVLNode?)
    requires t.Bin? && t.node == node && (t.left.Nil? || t.right.Nil?)
    requires Distinct(Plug(c, t)) && S == Nodes(Plug(c, t)) && IsTree(Snapshot(S), Plug(c, t), null)
    modifies S
    ensures root == Root(DetachEasy(c, t)) && IsTree(Snapshot(S), DetachEasy(c, t), null)
  {
    ghost var m := Snapshot(S);
    ghost var childTree := if t.left.Bin? then t.left else t.right;
    UnlinkFacts(m, c, t, childTree);
    var parent := node.parent;
    var child := Unlink(node, S, c, t, childTree);
    if parent == null {
      root := child;
      UnlinkedIsTree(m, Snapshot(S), c, t, childTree);
    } else {
      UnlinkedClimbs(m, Snapshot(S), c, t, childTree);
      SmallerSnapshot(Snapshot(S), Snapshot(S - {node}), S - {node}, c.up, Above(c, childTree));
      root := AvlFix(parent, S - {node}, c.up, Above(c, childTree));
      TreeFrame(Snapshot(S - {node}), Snapshot(S), DetachEasy(c, t), null);
    }
  }

  lemma SmallerSnapshot(m: Memory, m': Memory, S: set<AVLNode>, c: Context, t: Tree)
    requires Climbing(m, S, c, t) && forall n | n in S && n in m :: n in m' && m'[n] == m[n]
    ensures Climbing(m', S, c, t)
  {
    TreeFrame(m, m', t.left, t.node);
    TreeFrame(m, m', t.right, t.node);
    ContextFrame(m, m', c, t.node);
  }

  /** v has taken over the fields of s.node, and the neighbours of s.node now point to v. */
  ghost predicate StoodIn(m: Memory, m': Memory, c: Context, s: Tree, v: AVLNode)
    requires s.Bin?
  {
    && s.node in m && v in m' && m'[v] == m[s.node]
    && (s.left.Bin? ==> s.left.node in m && s.left.node in m' && m'[s.left.node] == m[s.left.node].(parent := v))
    && (s.right.Bin? ==> s.right.node in m && s.right.node in m' && m'[s.right.node] == m[s.right.node].(parent := v))
    && (!c.Top? ==>
         && c.node in m && c.node in m'
         && m'[c.node] == (if c.Left? then m[c.node].(left := v) else m[c.node].(right := v)))
    && forall n | n in m && n !in {v, Root(s.left), Root(s.right), Parent(c)} :: n in m' && m'[n] == m[n]
  }

  lemma StoodInIsTree(m: Memory, m': Memory, c: Context, s: Tree, v: AVLNode)
    requires s.Bin? && Distinct(Plug(c, s)) && v !in Nodes(Plug(c, s)) && IsTree(m, Plug(c, s), null)
    requires StoodIn(m, m', c, s, v)
    ensures IsTree(m', Plug(c, s.(node := v)), null)
  {
    hide Wrap, Inorder;
    PlugDistinct(c, s);
    PlugNodes(c, s);
    TreeSplit(m, c, s);
    assert s.left.Bin? ==> s.left.node in Nodes(s.left);
    assert s.right.Bin? ==> s.right.node in Nodes(s.right);
    if s.left.Bin? {
      TreeReparent(m, m', s.left, s.node, v);
    }
    if s.right.Bin? {
      TreeReparent(m, m', s.right, s.node, v);
    }
    SubtreeExchanged(m, m', c, s, s.(node := v));
  }

  lemma StandInFacts(m: Memory, c: Context, s: Tree, v: AVLNode)
    requires s.Bin? && Distinct(Plug(c, s)) && v !in Nodes(Plug(c, s)) && IsTree(m, Plug(c, s), null)
    ensures s.node in m && m[s.node] == TopCell(s, Parent(c)) && s.node != v
    ensures s.left.Bin? ==> s.left.node in m && s.left.node !in {s.node, v, Parent(c), Root(s.right)}
    ensures s.right.Bin? ==> s.right.node in m && s.right.node !in {s.node, v, Parent(c)}
    ensures !c.Top? ==> c.node in m && c.node !in {s.node, v} && (m[c.node].left == s.node <==> c.Left?)
  {
    PlugDistinct(c, s);
    PlugNodes(c, s);
    TreeSplit(m, c, s);
    assert s.left.Bin? ==> s.left.node in Nodes(s.left);
    assert s.right.Bin? ==> s.right.node in Nodes(s.right);
    assert !c.Top? ==> c.node in ContextNodes(c);
    assert c.Right? && c.left.Bin? ==> c.left.node in ContextNodes(c);
  }

  /** The struct copy of avl_del(), and the links of the neighbours. */
  method TakeOver(node: AVLNode, victim: AVLNode, oldRoot: AVLNode?, ghost S: set<AVLNode>, ghost c: Context,
                  ghost s: Tree)
    returns (root: AVLNode?)
    requires s.Bin? && s.node == node && Distinct(Plug(c, s)) && IsTree(Snapshot(S), Plug(c, s), null)
    requires victim !in Nodes(Plug(c, s)) && victim in S
    modifies S
    ensures root == (if c.Top? then victim else oldRoot) && StoodIn(old(Snapshot(S)), Snapshot(S), c, s, victim)
  {
    hide Wrap, Inorder, AvlTree.Nodes, AvlTree.Distinct, Plug, IsTree, AvlTree.Height, AvlTree.Size;
    StandInFacts(Snapshot(S), c, s, victim);
    victim.parent, victim.left, victim.right := node.parent, node.left, node.right;
    victim.height, victim.size := node.height, node.size;
    if victim.left != null {
      victim.left.parent := victim;
    }
    if victim.right != null {
      victim.right.parent := victim;
    }
    root := oldRoot;
    var parent := node.parent;
    if parent == null {
      root := victim;
    } else if parent.left == node {
      parent.left := victim;
    } else {
      parent.right := victim;
    }
  }

  /** The second half of avl_del(): the victim takes the place of the node, wherever rebalancing left it. */
  method StandIn(node: AVLNode, victim: AVLNode, oldRoot: AVLNode?, ghost S: set<AVLNode>, ghost c: Context,
                 ghost s: Tree)
    returns (root: AVLNode?)
    requires s.Bin? && s.node == node && Distinct(Plug(c, s)) && IsTree(Snapshot(S), Plug(c, s), null)
    requires victim !in Nodes(Plug(c, s)) && victim in S && oldRoot == Root(Plug(c, s))
    modifies S
    ensures root == Root(Plug(c, s.(node := victim)))
    ensures IsTree(Snapshot(S), Plug(c, s.(node := victim)), null)
  {
    hide IsTree, AvlTree.Distinct, AvlTree.Nodes, StoodIn;
    ghost var m := Snapshot(S);
    PlugRoot(c, s);
    PlugRoot(c, s.(node := victim));
    root := TakeOver(node, victim, oldRoot, S, c, s);
    StoodInIsTree(m, Snapshot(S), c, s, victim);
  }

  lemma {:induction false} PlugRoot(c: Context, t: Tree)
    ensures c.Top? ==> Plug(c, t) == t
    ensures !c.Top? ==> forall u :: Root(Plug(c, u)) == Root(Plug(c, t))
  {
    if !c.Top? {
      forall u ensures Root(Plug(c, u)) == Root(Plug(c, t)) {
        PlugRoot(c.up, Above(c, t));
        PlugRoot(c.up, Above(c, u));
      }
    }
  }

  /** avl_del(): takes the node out of the tree and returns the new root. */
  method AvlDel(node: AVLNode, ghost S: set<AVLNode>, ghost t: Tree) returns (root: AVLNode?)
    requires node in Nodes(t) && S == Nodes(t) && Distinct(t) && IsTree(Snapshot(S), t, null)
    modifies S
    ensures root == Root(Delete(t, node)) && IsTree(Snapshot(S), Delete(t, node), null)
  {
    ghost var m := Snapshot(S);
    ghost var (c, s) := Focus(t, node, Top);
    TreeSplit(m, c, s);
    if node.left == null || node.right == null {
      root := AvlDelEasy(node, S, c, s);
      return;
    }
    var victim := node.right;
    ghost var vc, vs := Right(s.left, node, c), s.right;
    while victim.left != null
      invariant vs.Bin? && vs.node == victim && Plug(vc, vs) == t && IsTree(m, vs, Parent(vc))
      invariant Leftmost(vs, vc) == Leftmost(s.right, Right(s.left, node, c))
      decreases vs
    {
      victim := victim.left;
      vc, vs := Left(vc, vs.node, vs.right), vs.left;
    }
    DetachEasyDistinct(vc, vs);
    DetachedKeepsNode(vc, vs, node);
    root := AvlDelEasy(victim, S, vc, vs);
    ghost var (c1, s1) := Focus(DetachEasy(vc, vs), node, Top);
    root := StandIn(node, victim, root, S, c1, s1);
  }

  // ---- navigation ----

  /** The rank of the top of s among all nodes of Plug(c, s). */
  ghost function RankOf(c: Context, s: Tree): nat
    requires s.Bin?
  {
    |Before(c)| + Size(s.left)
  }

  /** A walk through a tree of fewer than 2^32 nodes has arrived at the top of s. */
  ghost predicate WalkAt(m: Memory, t: Tree, c: Context, s: Tree) {
    && IsTree(m, t, null) && Distinct(t) && Size(t) < UINT32_RANGE
    && s.Bin? && Plug(c, s) == t
  }

  lemma RankIsIndex(c: Context, s: Tree)
    requires s.Bin?
    ensures RankOf(c, s) < |Inorder(Plug(c, s))| && Inorder(Plug(c, s))[RankOf(c, s)] == s.node
    ensures |Before(c)| + Size(s) <= Size(Plug(c, s))
  {
    SplitContext(c, s);
  }

  /** What the walk reads at its current node. */
  lemma WalkReads(m: Memory, t: Tree, c: Context, s: Tree)
    requires WalkAt(m, t, c, s)
    ensures s.node in m && m[s.node] == TopCell(s, Parent(c))
    ensures SizeIn(m, Root(s.left)) == Size(s.left) && SizeIn(m, Root(s.right)) == Size(s.right)
    ensures Has(m, Root(s.left)) && Has(m, Root(s.right))
    ensures Wrap(1 + Size(s.left)) == 1 + Size(s.left) && Wrap(1 + Size(s.right)) == 1 + Size(s.right)
    ensures c.Top? <==> m[s.node].parent == null
    ensures s.left.Bin? <==> m[s.node].left != null
    ensures s.right.Bin? <==> m[s.node].right != null
  {
    hide Inorder;
    TreeSplit(m, c, s);
    RankIsIndex(c, s);
    TopIsKnown(m, s.left, s.node);
    TopIsKnown(m, s.right, s.node);
  }

  lemma WalkUp(m: Memory, t: Tree, c: Context, s: Tree)
    requires WalkAt(m, t, c, s) && !c.Top?
    ensures WalkAt(m, t, c.up, Above(c, s)) && s.node in m && m[s.node].parent == c.node
    ensures c.node in m && (m[c.node].right == s.node <==> c.Right?)
    ensures RankOf(c.up, Above(c, s)) == if c.Right? then RankOf(c, s) - 1 - Size(s.left)
            else RankOf(c, s) + 1 + Size(s.right)
  {
    WalkReads(m, t, c, s);
    WalkReads(m, t, c.up, Above(c, s));
    PlugDistinct(c, s);
    assert c.Left? && c.right.Bin? ==> c.right.node in ContextNodes(c);
  }

  /** Whether the subtree s holds the node of rank k. */
  ghost predicate Covers(c: Context, s: Tree, k: int) {
    |Before(c)| <= k < |Before(c)| + Size(s)
  }

  /** What avl_rank() adds on its way up. */
  lemma RankUp(m: Memory, t: Tree, c: Context, s: Tree)
    requires WalkAt(m, t, c, s) && !c.Top?
    ensures (c.Left? || c.Right?) && WalkAt(m, t, c.up, Above(c, s)) && s.node in m && m[s.node].parent == c.node
    ensures c.node in m && (m[c.node].right == s.node <==> c.Right?) && Has(m, m[c.node].left)
    ensures |Before(c)| == |Before(c.up)| + if c.Right? then Wrap(1 + SizeIn(m, m[c.node].left)) else 0
  {
    WalkReads(m, t, c, s);
    WalkUp(m, t, c, s);
    WalkReads(m, t, c.up, Above(c, s));
  }

  /** avl_rank(): the index of the node in the in-order sequence. */
  method AvlRank(start: AVLNode, ghost S: set<AVLNode>, ghost t: Tree) returns (rank: int)
    requires start in Nodes(t) && Distinct(t) && IsTree(Snapshot(S), t, null) && Size(t) < UINT32_RANGE
    ensures rank == |NodesBefore(t, start)| && 0 <= rank < |Inorder(t)| && Inorder(t)[rank] == start
  {
    hide IsTree, Distinct, Before, Inorder;
    var node := start;
    ghost var m := Snapshot(S);
    ghost var (c, s) := Focus(t, node, Top);
    WalkReads(m, t, c, s);
    RankIsIndex(c, s);
    rank := AvlSize(node.left);
    NoneBeforeTop();
    while node.parent != null
      invariant WalkAt(m, t, c, s) && s.node == node && node in S
      invariant rank + |Before(c)| == |NodesBefore(t, start)|
      decreases c
    {
      hide WalkAt, NodesBefore, Wrap;
      WalkReads(m, t, c, s);
      RankUp(m, t, c, s);
      var parent := node.parent;
      if node == parent.right {
        rank := rank + Wrap(1 + AvlSize(parent.left));
      }
      s, c := Above(c, s), c.up;
      node := parent;
    }
    WalkReads(m, t, c, s);
  }

  lemma NoneBeforeTop()
    ensures Before(Top) == []
  {
  }

  /** Steps a walk to rank k may have taken on arrival at s, going up first and then down. */
  ghost function Effort(t: Tree, c: Context, s: Tree, k: int): int {
    if Covers(c, s, k) then 2 * Height(t) - Height(s) else Height(t) - Depth(c)
  }

  lemma EffortUp(t: Tree, c: Context, s: Tree, k: int)
    requires !c.Top? && Plug(c, s) == t && !Covers(c, s, k)
    ensures Effort(t, c, s, k) < Effort(t, c.up, Above(c, s), k) <= 2 * Height(t)
  {
    PlugHeight(c.up, Above(c, s));
  }

  lemma EffortDown(t: Tree, c: Context, s: Tree, k: int)
    requires s.Bin? && Covers(c, s, k) && k != RankOf(c, s)
    ensures k < RankOf(c, s) ==> Effort(t, c, s, k) < Effort(t, Left(c, s.node, s.right), s.left, k) <= 2 * Height(t)
    ensures k > RankOf(c, s) ==> Effort(t, c, s, k) < Effort(t, Right(s.left, s.node, c), s.right, k) <= 2 * Height(t)
  {
    BeforeRight(s.left, s.node, c);
  }

  lemma WalkLeft(m: Memory, t: Tree, c: Context, s: Tree)
    requires WalkAt(m, t, c, s) && s.left.Bin?
    ensures WalkAt(m, t, Left(c, s.node, s.right), s.left)
    ensures RankOf(Left(c, s.node, s.right), s.left) == RankOf(c, s) - 1 - Size(s.left.right)
  {
  }

  lemma BeforeRight(l: Tree, n: AVLNode, c: Context)
    ensures |Before(Right(l, n, c))| == |Before(c)| + Size(l) + 1
  {
  }

  lemma WalkRight(m: Memory, t: Tree, c: Context, s: Tree)
    requires WalkAt(m, t, c, s) && s.right.Bin?
    ensures WalkAt(m, t, Right(s.left, s.node, c), s.right)
    ensures RankOf(Right(s.left, s.node, c), s.right) == RankOf(c, s) + 1 + Size(s.right.left)
  {
    BeforeRight(s.left, s.node, c);
  }

  /** The upward move of avl_offset(). */
  method OffsetUp(node: AVLNode, pos: int, ghost S: set<AVLNode>, ghost t: Tree, ghost c: Context, ghost s: Tree)
    returns (parent: AVLNode?, newPos: int)
    requires WalkAt(Snapshot(S), t, c, s) && s.node == node
    ensures parent == Parent(c)
    ensures !c.Top? ==> newPos - pos == RankOf(c.up, Above(c, s)) - RankOf(c, s)
  {
    ghost var m := Snapshot(S);
    WalkReads(m, t, c, s);
    newPos := pos;
    parent := node.parent;
    if parent != null {
      WalkUp(m, t, c, s);
      if node == parent.right {
        newPos := pos - Wrap(1 + AvlSize(node.left));
      } else {
        newPos := pos + Wrap(1 + AvlSize(node.right));
      }
    }
  }

  /** The move into the right subtree. */
  method OffsetRight(node: AVLNode, pos: int, ghost S: set<AVLNode>, ghost t: Tree, ghost c: Context, ghost s: Tree)
    returns (child: AVLNode, newPos: int)
    requires WalkAt(Snapshot(S), t, c, s) && s.node == node && s.right.Bin?
    ensures child == s.right.node && WalkAt(Snapshot(S), t, Right(s.left, s.node, c), s.right)
    ensures newPos - pos == RankOf(Right(s.left, s.node, c), s.right) - RankOf(c, s)
  {
    WalkReads(Snapshot(S), t, c, s);
    WalkRight(Snapshot(S), t, c, s);
    WalkReads(Snapshot(S), t, Right(s.left, s.node, c), s.right);
    child := node.right;
    newPos := pos + Wrap(1 + AvlSize(child.left));
  }

  /** The move into the left subtree. */
  method OffsetLeft(node: AVLNode, pos: int, ghost S: set<AVLNode>, ghost t: Tree, ghost c: Context, ghost s: Tree)
    returns (child: AVLNode, newPos: int)
    requires WalkAt(Snapshot(S), t, c, s) && s.node == node && s.left.Bin?
    ensures child == s.left.node && WalkAt(Snapshot(S), t, Left(c, s.node, s.right), s.left)
    ensures newPos - pos == RankOf(Left(c, s.node, s.right), s.left) - RankOf(c, s)
  {
    WalkReads(Snapshot(S), t, c, s);
    WalkLeft(Snapshot(S), t, c, s);
    WalkReads(Snapshot(S), t, Left(c, s.node, s.right), s.left);
    child := node.left;
    newPos := pos - Wrap(1 + AvlSize(child.right));
  }

  /** One round of the loop of avl_offset(): into the subtree that covers rank k, or else up. */
  method OffsetStep(node: AVLNode, pos: int, offset: int, ghost S: set<AVLNode>, ghost t: Tree, ghost c: Context,
                    ghost s: Tree, ghost k: int)
    returns (next: AVLNode?, newPos: int, ghost c1: Context, ghost s1: Tree)
    requires WalkAt(Snapshot(S), t, c, s) && s.node == node
    requires pos - offset == RankOf(c, s) - k != 0
    ensures next == null ==> c.Top? && !Covers(c, s, k)
    ensures next != null ==>
              && WalkAt(Snapshot(S), t, c1, s1) && s1.node == next && newPos - offset == RankOf(c1, s1) - k
              && Effort(t, c, s, k) < Effort(t, c1, s1, k) <= 2 * Height(t)
  {
    WalkReads(Snapshot(S), t, c, s);
    if pos < offset && pos + AvlSize(node.right) >= offset {
      EffortDown(t, c, s, k);
      c1, s1 := Right(s.left, s.node, c), s.right;
      next, newPos := OffsetRight(node, pos, S, t, c, s);
    } else if pos > offset && pos - AvlSize(node.left) <= offset {
      EffortDown(t, c, s, k);
      c1, s1 := Left(c, s.node, s.right), s.left;
      next, newPos := OffsetLeft(node, pos, S, t, c, s);
    } else {
      c1, s1 := c, s;
      next, newPos := OffsetUp(node, pos, S, t, c, s);
      if next != null {
        WalkUp(Snapshot(S), t, c, s);
        EffortUp(t, c, s, k);
        c1, s1 := c.up, Above(c, s);
      }
    }
  }

  /**
   avl_offset(): the node `offset` places after (or before) the start, or null when there is none,
   found by walking up and then down, in at most twice as many steps as the tree is high.
   */
  method AvlOffset(start: AVLNode, offset: int, ghost S: set<AVLNode>, ghost t: Tree)
    returns (target: AVLNode?, ghost steps: nat)
    requires start in Nodes(t) && Distinct(t) && IsTree(Snapshot(S), t, null) && Size(t) < UINT32_RANGE
    ensures var k := |NodesBefore(t, start)| + offset;
            target == if 0 <= k < |Inorder(t)| then Inorder(t)[k] else null
    ensures steps <= 2 * Height(t)
  {
    var node: AVLNode := start;
    ghost var (c, s) := Focus(t, node, Top);
    ghost var k := RankOf(c, s) + offset;
    var pos: int := 0;
    steps := 0;
    PlugHeight(c, s);
    while pos != offset
      invariant WalkAt(Snapshot(S), t, c, s) && s.node == node
      invariant pos - offset == RankOf(c, s) - k
      invariant steps <= Effort(t, c, s, k) <= 2 * Height(t)
      decreases 2 * Height(t) - Effort(t, c, s, k)
    {
      RankIsIndex(c, s);
      target, pos, c, s := OffsetStep(node, pos, offset, S, t, c, s, k);
      if target == null {
        return;
      }
      node := target;
      steps := steps + 1;
    }
    RankIsIndex(c, s);
    target := node;
  }
}

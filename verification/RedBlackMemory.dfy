/** Pointer structures seen as memory: a map from nodes to their fields, and what it means for the
    fields to spell out a tree hanging below a path. No heap is involved here. */
module RedBlackMemory {
  import opened RedBlackModel

  class RbNode {
    var data: int
    var color: Color
    var left: RbNode?
    var right: RbNode?
    var parent: RbNode?

    constructor (d: int)
      ensures data == d && color == Red && left == null && right == null && parent == null
    {
      data, color, left, right, parent := d, Red, null, null, null;
    }
  }

  datatype Fields = Fields(data: int, color: Color, left: RbNode?, right: RbNode?, parent: RbNode?)

  type Memory = map<RbNode, Fields>

  type NodeTree = Tree<RbNode>

  type NodePath = Path<RbNode>

  ghost function Nodes(t: NodeTree): set<RbNode> {
    match t
    case Leaf => {}
    case Node(_, _, r, left, right) => {r} + Nodes(left) + Nodes(right)
  }

  ghost function PathNodes(z: NodePath): set<RbNode> {
    match z
    case Top => {}
    case InLeft(up, _, _, r, right) => {r} + PathNodes(up) + Nodes(right)
    case InRight(up, _, _, r, left) => {r} + PathNodes(up) + Nodes(left)
  }

  /** No node occurs twice. */
  ghost predicate Separate(t: NodeTree) {
    match t
    case Leaf => true
    case Node(_, _, r, left, right) =>
      r !in Nodes(left) && r !in Nodes(right) && Nodes(left) !! Nodes(right) && Separate(left) && Separate(right)
  }

  ghost predicate PathSeparate(z: NodePath) {
    match z
    case Top => true
    case InLeft(up, _, _, r, right) =>
      r !in PathNodes(up) && r !in Nodes(right) && PathNodes(up) !! Nodes(right) && PathSeparate(up) && Separate(right)
    case InRight(up, _, _, r, left) =>
      r !in PathNodes(up) && r !in Nodes(left) && PathNodes(up) !! Nodes(left) && PathSeparate(up) && Separate(left)
  }

  ghost function RefOf(z: NodePath): RbNode? {
    if z.Top? then null else z.ref
  }

  ghost function RootOf(t: NodeTree): RbNode? {
    if t.Leaf? then null else t.ref
  }

  /** The fields at and below `n`, whose parent is `p`, spell out `t`. */
  ghost predicate Shape(m: Memory, n: RbNode?, p: RbNode?, t: NodeTree)
    decreases t
  {
    match t
    case Leaf => n == null
    case Node(c, k, r, left, right) =>
      && n == r && r in m
      && m[r].color == c && m[r].data == k && m[r].parent == p
      && Shape(m, m[r].left, r, left) && Shape(m, m[r].right, r, right)
  }

  /** The fields above `child`, up to `root`, spell out `z`. */
  ghost predicate PathShape(m: Memory, z: NodePath, child: RbNode?, root: RbNode?)
    decreases z
  {
    match z
    case Top => root == child
    case InLeft(up, c, k, r, right) =>
      && r in m && m[r].left == child
      && m[r].color == c && m[r].data == k && m[r].parent == RefOf(up)
      && Shape(m, m[r].right, r, right) && PathShape(m, up, r, root)
    case InRight(up, c, k, r, left) =>
      && r in m && m[r].right == child
      && m[r].color == c && m[r].data == k && m[r].parent == RefOf(up)
      && Shape(m, m[r].left, r, left) && PathShape(m, up, r, root)
  }

  /** Node `n` at the end of path `z` carries subtree `t`. */
  ghost predicate At(m: Memory, z: NodePath, t: NodeTree, n: RbNode?, root: RbNode?) {
    && PathShape(m, z, n, root) && Shape(m, n, RefOf(z), t)
    && PathSeparate(z) && Separate(t) && PathNodes(z) !! Nodes(t)
  }

  ghost predicate AgreeOn(m: Memory, m': Memory, s: set<RbNode>) {
    forall r :: r in s && r in m ==> r in m' && m'[r] == m[r]
  }

  // ----- what changes elsewhere cannot disturb

  lemma {:induction false} ShapeFrame(m: Memory, m': Memory, n: RbNode?, p: RbNode?, t: NodeTree)
    requires Shape(m, n, p, t) && AgreeOn(m, m', Nodes(t))
    ensures Shape(m', n, p, t)
    decreases t
  {
    match t
    case Leaf =>
    case Node(c, k, r, left, right) =>
      ShapeFrame(m, m', m[r].left, r, left);
      ShapeFrame(m, m', m[r].right, r, right);
  }

  lemma {:induction false} PathFrame(m: Memory, m': Memory, z: NodePath, child: RbNode?, root: RbNode?)
    requires PathShape(m, z, child, root) && AgreeOn(m, m', PathNodes(z))
    ensures PathShape(m', z, child, root)
    decreases z
  {
    match z
    case Top =>
    case InLeft(up, c, k, r, right) =>
      ShapeFrame(m, m', m[r].right, r, right);
      PathFrame(m, m', up, r, root);
    case InRight(up, c, k, r, left) =>
      ShapeFrame(m, m', m[r].left, r, left);
      PathFrame(m, m', up, r, root);
  }

  lemma ShapeRoot(m: Memory, n: RbNode?, p: RbNode?, t: NodeTree)
    requires Shape(m, n, p, t)
    ensures n == RootOf(t)
    ensures n != null ==> n in m && n in Nodes(t)
  {
  }

  /** Giving a subtree another parent. */
  lemma ShapeAdopted(m: Memory, m': Memory, n: RbNode?, p: RbNode?, q: RbNode?, t: NodeTree)
    requires Shape(m, n, p, t) && Separate(t)
    requires n != null ==> n in m && n in m' && m'[n] == m[n].(parent := q)
    requires AgreeOn(m, m', if n == null then Nodes(t) else Nodes(t) - {n})
    ensures Shape(m', n, q, t)
  {
    match t
    case Leaf =>
    case Node(c, k, r, left, right) =>
      ShapeFrame(m, m', m[r].left, r, left);
      ShapeFrame(m, m', m[r].right, r, right);
  }

  /** Hanging another node into the hole of a path. */
  lemma PathRelinked(m: Memory, m': Memory, z: NodePath, y: RbNode?, x: RbNode?, root: RbNode?)
    requires !z.Top? && PathShape(m, z, y, root) && PathSeparate(z)
    requires z.ref in m'
    requires m'[z.ref] == if z.InLeft? then m[z.ref].(left := x) else m[z.ref].(right := x)
    requires AgreeOn(m, m', PathNodes(z) - {z.ref})
    ensures PathShape(m', z, x, root)
  {
    PathFrame(m, m', z.up, z.ref, root);
    if z.InLeft? {
      ShapeFrame(m, m', m[z.ref].right, z.ref, z.right);
    } else {
      ShapeFrame(m, m', m[z.ref].left, z.ref, z.left);
    }
  }

  /** A path with its subtree is a whole tree. */
  lemma {:induction false} CloseUp(m: Memory, z: NodePath, t: NodeTree, n: RbNode?, root: RbNode?)
    requires At(m, z, t, n, root)
    ensures At(m, Top, Plug(z, t), root, root)
    ensures Nodes(Plug(z, t)) == PathNodes(z) + Nodes(t)
    decreases z
  {
    match z
    case Top =>
    case InLeft(up, c, k, r, right) => CloseUp(m, up, Node(c, k, r, t, right), r, root);
    case InRight(up, c, k, r, left) => CloseUp(m, up, Node(c, k, r, left, t), r, root);
  }

  // ----- rotations

  ghost function SetColor(m: Memory, n: RbNode, c: Color): Memory {
    if n in m then m[n := m[n].(color := c)] else m
  }

  ghost function NewRoot(z: NodePath, x: RbNode, root: RbNode?): RbNode? {
    if z.Top? then x else root
  }

  /** A node that hangs in a path's hole is not its sibling there. */
  lemma HoleSide(m: Memory, z: NodePath, n: RbNode, root: RbNode?)
    requires PathShape(m, z, n, root) && !z.Top? && n !in PathNodes(z)
    ensures z.ref in m && (z.InLeft? <==> m[z.ref].left == n)
  {
    if z.InRight? {
      ShapeRoot(m, m[z.ref].left, z.ref, z.left);
    }
  }

  /** Two nodes and three subtrees that share nothing. */
  ghost predicate Apart(y: RbNode, x: RbNode, a: NodeTree, b: NodeTree, c: NodeTree) {
    && y != x && {x, y} !! Nodes(a) && {x, y} !! Nodes(b) && {x, y} !! Nodes(c)
    && Nodes(a) !! Nodes(b) && Nodes(a) !! Nodes(c) && Nodes(b) !! Nodes(c)
    && Separate(a) && Separate(b) && Separate(c)
  }

  lemma LeftParts(t: NodeTree)
    requires t.Node? && t.left.Node? && Separate(t)
    ensures Apart(t.ref, t.left.ref, t.left.left, t.left.right, t.right)
    ensures Nodes(t) == {t.ref, t.left.ref} + Nodes(t.left.left) + Nodes(t.left.right) + Nodes(t.right)
  {
    assert Separate(t.left);
  }

  lemma RightParts(t: NodeTree)
    requires t.Node? && t.right.Node? && Separate(t)
    ensures Apart(t.ref, t.right.ref, t.left, t.right.left, t.right.right)
    ensures Nodes(t) == {t.ref, t.right.ref} + Nodes(t.left) + Nodes(t.right.left) + Nodes(t.right.right)
  {
    assert Separate(t.right);
  }

  /** Field by field, what a rotation leaves behind. */
  ghost predicate Turned(m: Memory, m': Memory, p: RbNode?, b: RbNode?, top: RbNode, low: RbNode, newTop: Fields, newLow: Fields) {
    && top in m' && m'[top] == newTop
    && low in m' && m'[low] == newLow
    && (b != null ==> b in m && b in m' && m'[b] == m[b].(parent := low))
    && (p != null ==> p in m && p in m' && m'[p] == if low == m[p].left then m[p].(left := top) else m[p].(right := top))
    && (forall r :: r in m && r != top && r != low && r != b && r != p ==> r in m' && m'[r] == m[r])
    && m'.Keys == m.Keys
  }

  lemma TurnedPath(m: Memory, m': Memory, z: NodePath, b: RbNode?, top: RbNode, low: RbNode, newTop: Fields, newLow: Fields, root: RbNode?)
    requires PathShape(m, z, low, root) && PathSeparate(z)
    requires Turned(m, m', RefOf(z), b, top, low, newTop, newLow)
    requires low !in PathNodes(z) && top !in PathNodes(z) && (b != null ==> b !in PathNodes(z))
    ensures PathShape(m', z, top, NewRoot(z, top, root))
  {
    if !z.Top? {
      HoleSide(m, z, low, root);
      PathRelinked(m, m', z, low, top, root);
    }
  }

  ghost function RightTurn(t: NodeTree): NodeTree
    requires t.Node? && t.left.Node?
  {
    var x := t.left;
    Node(x.color, x.key, x.ref, x.left, Node(t.color, t.key, t.ref, x.right, t.right))
  }

  ghost function LeftTurn(t: NodeTree): NodeTree
    requires t.Node? && t.right.Node?
  {
    var y := t.right;
    Node(y.color, y.key, y.ref, Node(t.color, t.key, t.ref, t.left, y.left), y.right)
  }

  lemma RightTurnSeparate(t: NodeTree)
    requires t.Node? && t.left.Node? && Separate(t)
    ensures Separate(RightTurn(t)) && Nodes(RightTurn(t)) == Nodes(t)
  {
    LeftParts(t);
  }

  lemma LeftTurnSeparate(t: NodeTree)
    requires t.Node? && t.right.Node? && Separate(t)
    ensures Separate(LeftTurn(t)) && Nodes(LeftTurn(t)) == Nodes(t)
  {
    RightParts(t);
  }

  /** The fields a right rotation at the root of `t` starts from. */
  lemma RightStart(m: Memory, z: NodePath, t: NodeTree, y: RbNode, root: RbNode?)
    requires At(m, z, t, y, root) && t.Node? && t.left.Node?
    ensures y in m && m[y].left == t.left.ref && t.left.ref in m && m[y].parent == RefOf(z)
    ensures var x := t.left.ref;
            && Shape(m, m[x].left, x, t.left.left) && Shape(m, m[x].right, x, t.left.right) && Shape(m, m[y].right, y, t.right)
            && (m[x].right != null ==> m[x].right in m && m[x].right in Nodes(t.left.right))
            && m[y].color == t.color && m[y].data == t.key && m[x].color == t.left.color && m[x].data == t.left.key
    ensures !z.Top? ==> z.ref in PathNodes(z) && z.ref in m
  {
    assert Shape(m, m[y].left, y, t.left);
    ShapeRoot(m, m[t.left.ref].right, t.left.ref, t.left.right);
  }

  lemma LeftStart(m: Memory, z: NodePath, t: NodeTree, x: RbNode, root: RbNode?)
    requires At(m, z, t, x, root) && t.Node? && t.right.Node?
    ensures x in m && m[x].right == t.right.ref && t.right.ref in m && m[x].parent == RefOf(z)
    ensures var y := t.right.ref;
            && Shape(m, m[x].left, x, t.left) && Shape(m, m[y].left, y, t.right.left) && Shape(m, m[y].right, y, t.right.right)
            && (m[y].left != null ==> m[y].left in m && m[y].left in Nodes(t.right.left))
            && m[x].color == t.color && m[x].data == t.key && m[y].color == t.right.color && m[y].data == t.right.key
    ensures !z.Top? ==> z.ref in PathNodes(z) && z.ref in m
  {
    assert Shape(m, m[x].right, x, t.right);
    ShapeRoot(m, m[t.right.ref].left, t.right.ref, t.right.left);
  }

  /** A rotateright at `y` is the right rotation of its subtree. */
  lemma RightRotated(m: Memory, m': Memory, z: NodePath, t: NodeTree, y: RbNode, root: RbNode?)
    requires At(m, z, t, y, root) && t.Node? && t.left.Node? && y in m && t.left.ref in m
    requires var x := t.left.ref; var bn := m[x].right;
             Turned(m, m', RefOf(z), bn, x, y, m[x].(right := y, parent := RefOf(z)), m[y].(left := bn, parent := x))
    ensures At(m', z, RightTurn(t), t.left.ref, NewRoot(z, t.left.ref, root))
    ensures Nodes(RightTurn(t)) == Nodes(t)
  {
    LeftParts(t);
    RightTurnSeparate(t);
    RightStart(m, z, t, y, root);
    var x, bn, p := t.left.ref, m[t.left.ref].right, m[y].parent;
    assert PathShape(m', z, x, NewRoot(z, x, root)) by {
      TurnedPath(m, m', z, bn, x, y, m[x].(right := y, parent := p), m[y].(left := bn, parent := x), root);
    }
    assert Shape(m', m'[x].left, x, t.left.left) by { ShapeFrame(m, m', m[x].left, x, t.left.left); }
    assert Shape(m', m'[y].left, y, t.left.right) by { ShapeAdopted(m, m', bn, x, y, t.left.right); }
    assert Shape(m', m'[y].right, y, t.right) by { ShapeFrame(m, m', m[y].right, y, t.right); }
    assert Shape(m', y, x, RightTurn(t).right);
  }

  /** A rotateleft at `x` is the left rotation of its subtree. */
  lemma LeftRotated(m: Memory, m': Memory, z: NodePath, t: NodeTree, x: RbNode, root: RbNode?)
    requires At(m, z, t, x, root) && t.Node? && t.right.Node? && x in m && t.right.ref in m
    requires var y := t.right.ref; var bn := m[y].left;
             Turned(m, m', RefOf(z), bn, y, x, m[y].(left := x, parent := RefOf(z)), m[x].(right := bn, parent := y))
    ensures At(m', z, LeftTurn(t), t.right.ref, NewRoot(z, t.right.ref, root))
    ensures Nodes(LeftTurn(t)) == Nodes(t)
  {
    RightParts(t);
    LeftTurnSeparate(t);
    LeftStart(m, z, t, x, root);
    var y, bn, p := t.right.ref, m[t.right.ref].left, m[x].parent;
    assert PathShape(m', z, y, NewRoot(z, y, root)) by {
      TurnedPath(m, m', z, bn, y, x, m[y].(left := x, parent := p), m[x].(right := bn, parent := y), root);
    }
    assert Shape(m', m'[x].left, x, t.left) by { ShapeFrame(m, m', m[x].left, x, t.left); }
    assert Shape(m', m'[x].right, x, t.right.left) by { ShapeAdopted(m, m', bn, y, x, t.right.left); }
    assert Shape(m', m'[y].right, y, t.right.right) by { ShapeFrame(m, m', m[y].right, y, t.right.right); }
    assert Shape(m', x, y, LeftTurn(t).left);
  }

  // ----- moving along the tree and painting nodes

  /** The same memory, seen from the parent. */
  lemma Up(m: Memory, z: NodePath, t: NodeTree, n: RbNode?, root: RbNode?)
    requires At(m, z, t, n, root) && !z.Top?
    ensures At(m, z.up, Parent(z, t, z.color), z.ref, root)
  {
  }

  /** The same memory, seen from the left child. */
  lemma DownLeft(m: Memory, z: NodePath, t: NodeTree, n: RbNode, root: RbNode?)
    requires At(m, z, t, n, root) && t.Node?
    ensures n in m && At(m, InLeft(z, t.color, t.key, t.ref, t.right), t.left, m[n].left, root)
  {
  }

  /** The same memory, seen from the right child. */
  lemma DownRight(m: Memory, z: NodePath, t: NodeTree, n: RbNode, root: RbNode?)
    requires At(m, z, t, n, root) && t.Node?
    ensures n in m && At(m, InRight(z, t.color, t.key, t.ref, t.left), t.right, m[n].right, root)
  {
  }

  lemma Painted(m: Memory, z: NodePath, t: NodeTree, n: RbNode, root: RbNode?, c: Color)
    requires At(m, z, t, n, root) && t.Node?
    ensures At(SetColor(m, n, c), z, t.(color := c), n, root)
  {
    var m' := SetColor(m, n, c);
    PathFrame(m, m', z, n, root);
    ShapeFrame(m, m', m[n].left, n, t.left);
    ShapeFrame(m, m', m[n].right, n, t.right);
  }
}

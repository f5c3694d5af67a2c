/** Red-black insertion on values: a tree and the path from a node up to the root. The fix-up is the
    program's own, including its inner-child case, where the parent pointer is not read again
    after the first rotation. */
module RedBlackModel {

  datatype Color = Red | Black

  /** `ref` identifies the node; equal keys are told apart by it. */
  datatype Tree<A> = Leaf | Node(color: Color, key: int, ref: A, left: Tree<A>, right: Tree<A>)

  /** The path above a subtree: `InLeft` means the subtree is the left child of the node given. */
  datatype Path<A> =
    | Top
    | InLeft(up: Path<A>, color: Color, key: int, ref: A, right: Tree<A>)
    | InRight(up: Path<A>, color: Color, key: int, ref: A, left: Tree<A>)

  function Plug<A>(z: Path<A>, t: Tree<A>): Tree<A>
    decreases z
  {
    match z
    case Top => t
    case InLeft(up, c, k, r, right) => Plug(up, Node(c, k, r, t, right))
    case InRight(up, c, k, r, left) => Plug(up, Node(c, k, r, left, t))
  }

  predicate IsRed<A>(t: Tree<A>) {
    t.Node? && t.color.Red?
  }

  function Blacken<A>(t: Tree<A>): Tree<A> {
    if t.Node? then t.(color := Black) else t
  }

  /** The search for the insertion point: smaller keys go left, all others right. */
  function Descend<A>(z: Path<A>, t: Tree<A>, key: int): Path<A>
    decreases t
  {
    match t
    case Leaf => z
    case Node(c, k, r, left, right) =>
      if key < k then Descend(InLeft(z, c, k, r, right), left, key)
      else Descend(InRight(z, c, k, r, left), right, key)
  }

  predicate ParentRed<A>(z: Path<A>) {
    !z.Top? && z.color.Red?
  }

  /** The sibling of the parent. */
  function Uncle<A>(z: Path<A>): Tree<A>
    requires !z.Top? && !z.up.Top?
  {
    if z.up.InLeft? then z.up.right else z.up.left
  }

  /** The parent with `n` in its place, coloured `c`. */
  function Parent<A>(z: Path<A>, n: Tree<A>, c: Color): Tree<A>
    requires !z.Top?
  {
    if z.InLeft? then Node(c, z.key, z.ref, n, z.right) else Node(c, z.key, z.ref, z.left, n)
  }

  /** Recolouring: the grandparent turns red, parent and uncle black. */
  function Recolour<A>(z: Path<A>, n: Tree<A>): Tree<A>
    requires !z.Top? && !z.up.Top?
  {
    var g := z.up;
    if g.InLeft? then Node(Red, g.key, g.ref, Parent(z, n, Black), Blacken(g.right))
    else Node(Red, g.key, g.ref, Blacken(g.left), Parent(z, n, Black))
  }

  /** Whether the node hangs on the other side of its parent than the parent of the grandparent. */
  predicate IsInner<A>(z: Path<A>)
    requires !z.Top? && !z.up.Top?
  {
    z.InLeft? != z.up.InLeft?
  }

  /** The subtree the rotations leave in the grandparent's place. */
  function Rotate<A>(z: Path<A>, n: Tree<A>): Tree<A>
    requires !z.Top? && !z.up.Top? && n.Node?
  {
    var g := z.up;
    if g.InLeft? then
      if z.InLeft? then
        Node(Black, z.key, z.ref, n, Node(Red, g.key, g.ref, z.right, g.right))
      else
        Node(n.color, n.key, n.ref, Node(Black, z.key, z.ref, z.left, n.left), Node(Red, g.key, g.ref, n.right, g.right))
    else
      if z.InRight? then
        Node(Black, z.key, z.ref, Node(Red, g.key, g.ref, g.left, z.left), n)
      else
        Node(n.color, n.key, n.ref, Node(Red, g.key, g.ref, g.left, n.left), Node(Black, z.key, z.ref, n.right, z.right))
  }

  /** The fix-up loop from a red node `n` at `z`, up to but excluding the final blackening of the root. */
  function Fix<A>(z: Path<A>, n: Tree<A>): Tree<A>
    requires n.Node?
    decreases z
  {
    if !ParentRed(z) || z.up.Top? then Plug(z, n)
    else if IsRed(Uncle(z)) then Fix(z.up.up, Recolour(z, n))
    else Plug(z.up.up, Rotate(z, n))
  }

  /** Rotations the fix-up performs. */
  function Rotations<A>(z: Path<A>): (r: nat)
    ensures r <= 2
    decreases z
  {
    if !ParentRed(z) || z.up.Top? then 0
    else if IsRed(Uncle(z)) then Rotations(z.up.up)
    else if IsInner(z) then 2 else 1
  }

  function NewNode<A>(key: int, ref: A): Tree<A> {
    Node(Red, key, ref, Leaf, Leaf)
  }

  function Insert<A>(t: Tree<A>, key: int, ref: A): Tree<A> {
    Blacken(Fix(Descend(Top, t, key), NewNode(key, ref)))
  }

  /** Whether inserting `key` ends in the inner-child case: climb past red uncles, then look. */
  predicate EntersInner<A>(z: Path<A>)
    decreases z
  {
    ParentRed(z) && !z.up.Top? && (if IsRed(Uncle(z)) then EntersInner(z.up.up) else IsInner(z))
  }
}

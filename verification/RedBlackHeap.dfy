/** Insertion as the program does it, on nodes with left, right and parent pointers. Each method is
    proved to do to the pointers what `RedBlackModel` does to values. */
module RedBlackHeap {
  import opened RedBlackModel
  import opened RedBlackMemory

  /** The outermost node of the path, if any, is black. */
  predicate BlackTop<A>(z: Path<A>) {
    !z.Top? ==> if z.up.Top? then z.color.Black? else BlackTop(z.up)
  }

  /** What the pointers around a red node with a red parent look like. */
  lemma Family(m: Memory, z: NodePath, n: NodeTree, x: RbNode, root: RbNode?)
    requires At(m, z, n, x, root) && n.Node? && !z.Top? && !z.up.Top?
    ensures x in m && m[x].parent == z.ref && z.ref in m && m[z.ref].parent == z.up.ref && z.up.ref in m
    ensures m[z.up.ref].left == z.ref <==> z.up.InLeft?
    ensures z.up.InLeft? ==> m[z.up.ref].right == RootOf(Uncle(z))
    ensures z.up.InRight? ==> m[z.up.ref].left == RootOf(Uncle(z))
    ensures m[z.ref].left == x <==> z.InLeft?
    ensures m[z.ref].right == x <==> z.InRight?
    ensures m[z.ref].color == z.color
    ensures Uncle(z).Node? ==> Uncle(z).ref in m && m[Uncle(z).ref].color == Uncle(z).color
  {
    Up(m, z, n, x, root);
    HoleSide(m, z, x, root);
    HoleSide(m, z.up, z.ref, root);
    if z.InLeft? { ShapeRoot(m, m[z.ref].right, z.ref, z.right); }
    if z.up.InLeft? {
      ShapeRoot(m, m[z.up.ref].right, z.up.ref, z.up.right);
    } else {
      ShapeRoot(m, m[z.up.ref].left, z.up.ref, z.up.left);
    }
  }

  lemma {:induction false} RootOnPath(m: Memory, z: NodePath, child: RbNode?, root: RbNode?)
    requires PathShape(m, z, child, root) && !z.Top?
    ensures root in PathNodes(z)
    decreases z
  {
    if z.up.Top? {
    } else {
      RootOnPath(m, z.up, z.ref, root);
    }
  }

  /** The grandparent's subtree with the grandparent painted `g` and the parent painted `p`. */
  ghost function Repainted(z: NodePath, n: NodeTree, g: Color, p: Color): NodeTree
    requires !z.Top? && !z.up.Top?
  {
    if z.up.InLeft? then Node(g, z.up.key, z.up.ref, Parent(z, n, p), z.up.right)
    else Node(g, z.up.key, z.up.ref, z.up.left, Parent(z, n, p))
  }

  /** Painting the grandparent red, the parent black and a red uncle black. */
  lemma RecolouredMemory(m: Memory, z: NodePath, n: NodeTree, x: RbNode, root: RbNode?)
    requires At(m, z, n, x, root) && n.Node? && !z.Top? && !z.up.Top? && Uncle(z).Node?
    ensures At(SetColor(SetColor(SetColor(m, z.up.ref, Red), z.ref, Black), Uncle(z).ref, Black), z.up.up, Recolour(z, n), z.up.ref, root)
  {
    var g, p := z.up.ref, z.ref;
    var gp := z.up.up;
    Up(m, z, n, x, root);
    Up(m, z.up, Parent(z, n, z.color), p, root);
    Painted(m, gp, Repainted(z, n, z.up.color, z.color), g, root, Red);
    var m1 := SetColor(m, g, Red);
    var t1 := Repainted(z, n, Red, z.color);
    var u := Uncle(z).ref;
    if z.up.InLeft? {
      DownLeft(m1, gp, t1, g, root);
      var zp := InLeft(gp, Red, t1.key, t1.ref, t1.right);
      Painted(m1, zp, t1.left, p, root, Black);
      var m2 := SetColor(m1, p, Black);
      Up(m2, zp, Parent(z, n, Black), p, root);
      var t2 := Repainted(z, n, Red, Black);
      DownRight(m2, gp, t2, g, root);
      var zu := InRight(gp, Red, t2.key, t2.ref, t2.left);
      Painted(m2, zu, t2.right, u, root, Black);
      Up(SetColor(m2, u, Black), zu, Blacken(t2.right), u, root);
    } else {
      DownRight(m1, gp, t1, g, root);
      var zp := InRight(gp, Red, t1.key, t1.ref, t1.left);
      Painted(m1, zp, t1.right, p, root, Black);
      var m2 := SetColor(m1, p, Black);
      Up(m2, zp, Parent(z, n, Black), p, root);
      var t2 := Repainted(z, n, Red, Black);
      DownLeft(m2, gp, t2, g, root);
      var zu := InLeft(gp, Red, t2.key, t2.ref, t2.right);
      Painted(m2, zu, t2.left, u, root, Black);
      Up(SetColor(m2, u, Black), zu, Blacken(t2.left), u, root);
    }
  }

  /** Painting the parent black and the grandparent red, before the last rotation. */
  lemma OuterPainted(m: Memory, z: NodePath, n: NodeTree, x: RbNode, root: RbNode?)
    requires At(m, z, n, x, root) && n.Node? && !z.Top? && !z.up.Top?
    ensures At(SetColor(SetColor(m, z.ref, Black), z.up.ref, Red), z.up.up, Repainted(z, n, Red, Black), z.up.ref, root)
  {
    Up(m, z, n, x, root);
    Painted(m, z.up, Parent(z, n, z.color), z.ref, root, Black);
    var m1 := SetColor(m, z.ref, Black);
    Up(m1, z.up, Parent(z, n, Black), z.ref, root);
    Painted(m1, z.up.up, Repainted(z, n, z.up.color, Black), z.up.ref, root, Red);
  }

  /** In the inner-child case the old parent hangs below the node after the first rotation; it is
      still the one painted black. */
  ghost function InnerTree(z: NodePath, n: NodeTree, p: Color): NodeTree
    requires !z.Top? && n.Node?
  {
    if z.InRight? then Node(n.color, n.key, n.ref, Node(p, z.key, z.ref, z.left, n.left), n.right)
    else Node(n.color, n.key, n.ref, n.left, Node(p, z.key, z.ref, n.right, z.right))
  }

  ghost function InnerRepainted(z: NodePath, n: NodeTree): NodeTree
    requires !z.Top? && !z.up.Top? && n.Node?
  {
    if z.up.InLeft? then Node(Red, z.up.key, z.up.ref, InnerTree(z, n, Black), z.up.right)
    else Node(Red, z.up.key, z.up.ref, z.up.left, InnerTree(z, n, Black))
  }

  lemma InnerPainted(m: Memory, z: NodePath, n: NodeTree, x: RbNode, root: RbNode?)
    requires !z.Top? && !z.up.Top? && n.Node? && At(m, z.up, InnerTree(z, n, z.color), x, root)
    ensures At(SetColor(SetColor(m, z.ref, Black), z.up.ref, Red), z.up.up, InnerRepainted(z, n), z.up.ref, root)
  {
    var t := InnerTree(z, n, z.color);
    if z.InRight? {
      DownLeft(m, z.up, t, x, root);
      var zp := InLeft(z.up, t.color, t.key, t.ref, t.right);
      Painted(m, zp, t.left, z.ref, root, Black);
      Up(SetColor(m, z.ref, Black), zp, t.left.(color := Black), z.ref, root);
    } else {
      DownRight(m, z.up, t, x, root);
      var zp := InRight(z.up, t.color, t.key, t.ref, t.left);
      Painted(m, zp, t.right, z.ref, root, Black);
      Up(SetColor(m, z.ref, Black), zp, t.right.(color := Black), z.ref, root);
    }
    var m1 := SetColor(m, z.ref, Black);
    Up(m1, z.up, InnerTree(z, n, Black), x, root);
    var t2 := Parent(z.up, InnerTree(z, n, Black), z.up.color);
    Painted(m1, z.up.up, t2, z.up.ref, root, Red);
  }

  /** After an outer rotation the node keeps its parent, which is now black. */
  lemma OuterEnds(m: Memory, z: NodePath, n: NodeTree, root: RbNode?)
    requires !z.Top? && !z.up.Top? && n.Node? && !IsInner(z)
    requires At(m, z.up.up, Rotate(z, n), Rotate(z, n).ref, root)
    ensures n.ref in m && m[n.ref].parent == z.ref && z.ref in m && m[z.ref].color == Black
  {
    var t := Rotate(z, n);
    if z.up.InLeft? {
      DownLeft(m, z.up.up, t, t.ref, root);
    } else {
      DownRight(m, z.up.up, t, t.ref, root);
    }
  }

  /** After an inner rotation the old parent, the next node to look at, is black. */
  lemma InnerEnds(m: Memory, z: NodePath, n: NodeTree, root: RbNode?)
    requires !z.Top? && !z.up.Top? && n.Node? && IsInner(z)
    requires At(m, z.up.up, Rotate(z, n), Rotate(z, n).ref, root)
    ensures z.ref in m && m[z.ref].color == Black
  {
    var t := Rotate(z, n);
    if z.up.InLeft? {
      DownLeft(m, z.up.up, t, t.ref, root);
    } else {
      DownRight(m, z.up.up, t, t.ref, root);
    }
  }

  /** What the fix-up loop's guard sees of a node and its parent. */
  lemma Looks(m: Memory, z: NodePath, t: NodeTree, n: RbNode?, root: RbNode?)
    requires At(m, z, t, n, root) && t.Node?
    ensures n != null && n in m && m[n].color == t.color && m[n].parent == RefOf(z)
    ensures n == root <==> z.Top?
    ensures !z.Top? ==> z.ref in m && m[z.ref].color == z.color
  {
    if !z.Top? {
      RootOnPath(m, z, n, root);
    }
  }

  lemma {:induction false} PlugIsNode<A>(z: Path<A>, t: Tree<A>)
    requires t.Node?
    ensures Plug(z, t).Node?
    decreases z
  {
    match z
    case Top =>
    case InLeft(up, c, k, r, right) => PlugIsNode(up, Node(c, k, r, t, right));
    case InRight(up, c, k, r, left) => PlugIsNode(up, Node(c, k, r, left, t));
  }

  lemma {:induction false} FixIsNode<A>(z: Path<A>, n: Tree<A>)
    requires n.Node?
    ensures Fix(z, n).Node?
    decreases z
  {
    if !ParentRed(z) || z.up.Top? {
      PlugIsNode(z, n);
    } else if IsRed(Uncle(z)) {
      FixIsNode(z.up.up, Recolour(z, n));
    } else {
      PlugIsNode(z.up.up, Rotate(z, n));
    }
  }

  // ----- which nodes a tree has

  lemma {:induction false} PlugNodes(z: NodePath, t: NodeTree)
    ensures Nodes(Plug(z, t)) == PathNodes(z) + Nodes(t)
    decreases z
  {
    match z
    case Top =>
    case InLeft(up, c, k, r, right) => PlugNodes(up, Node(c, k, r, t, right));
    case InRight(up, c, k, r, left) => PlugNodes(up, Node(c, k, r, left, t));
  }

  lemma RotateNodes(z: NodePath, n: NodeTree)
    requires !z.Top? && !z.up.Top? && n.Node?
    ensures PathNodes(z.up.up) + Nodes(Rotate(z, n)) == PathNodes(z) + Nodes(n)
    ensures PathNodes(z.up.up) + Nodes(Recolour(z, n)) == PathNodes(z) + Nodes(n)
  {
    assert Nodes(n) == {n.ref} + Nodes(n.left) + Nodes(n.right);
  }

  lemma {:induction false} FixNodes(z: NodePath, n: NodeTree)
    requires n.Node?
    ensures Nodes(Fix(z, n)) == PathNodes(z) + Nodes(n)
    decreases z
  {
    if !ParentRed(z) || z.up.Top? {
      PlugNodes(z, n);
    } else {
      RotateNodes(z, n);
      if IsRed(Uncle(z)) {
        FixNodes(z.up.up, Recolour(z, n));
      } else {
        PlugNodes(z.up.up, Rotate(z, n));
      }
    }
  }

  lemma {:induction false} DescendNodes(z: NodePath, t: NodeTree, key: int)
    ensures PathNodes(Descend(z, t, key)) == PathNodes(z) + Nodes(t)
    decreases t
  {
    match t
    case Leaf =>
    case Node(c, k, r, left, right) =>
      if key < k { DescendNodes(InLeft(z, c, k, r, right), left, key); } else { DescendNodes(InRight(z, c, k, r, left), right, key); }
  }

  lemma {:induction false} DescendBlackTop<A>(z: Path<A>, t: Tree<A>, key: int)
    requires BlackTop(z) && (z.Top? ==> !IsRed(t))
    ensures BlackTop(Descend(z, t, key))
    decreases t
  {
    match t
    case Leaf =>
    case Node(c, k, r, left, right) =>
      if key < k { DescendBlackTop(InLeft(z, c, k, r, right), left, key); } else { DescendBlackTop(InRight(z, c, k, r, left), right, key); }
  }

  /** Hanging a new red node into the empty hole of a path. */
  lemma Attached(m: Memory, m': Memory, z: NodePath, x: RbNode, key: int, root: RbNode?)
    requires At(m, z, Leaf, null, root) && x !in PathNodes(z)
    requires x in m' && m'[x] == Fields(key, Red, null, null, RefOf(z))
    requires !z.Top? ==> z.ref in m && z.ref in m' && m'[z.ref] == if z.InLeft? then m[z.ref].(left := x) else m[z.ref].(right := x)
    requires AgreeOn(m, m', if z.Top? then {} else PathNodes(z) - {z.ref})
    ensures At(m', z, NewNode(key, x), x, NewRoot(z, x, root))
  {
    if !z.Top? {
      PathRelinked(m, m', z, null, x, root);
    }
  }

  /** What insertion needs to know of the path it descends, and of the tree it ends with. */
  lemma InsertParts(t: NodeTree, key: int, x: RbNode)
    requires !IsRed(t)
    ensures BlackTop(Descend(Top, t, key)) && PathNodes(Descend(Top, t, key)) == Nodes(t)
    ensures Nodes(Insert(t, key, x)) == Nodes(t) + {x}
    ensures !IsRed(Insert(t, key, x))
  {
    var z, n := Descend(Top, t, key), NewNode(key, x);
    DescendNodes(Top, t, key);
    DescendBlackTop(Top, t, key);
    FixNodes(z, n);
    assert Nodes(n) == {x};
    assert Nodes(Blacken(Fix(z, n))) == Nodes(Fix(z, n));
  }
}

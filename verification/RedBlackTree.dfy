/** The mutable red-black tree: rotations, fix-up and insertion on pointers. */
module RedBlackTree {
  import opened RedBlackModel
  import opened RedBlackOrder
  import opened RedBlackRuns
  import opened RedBlackMemory
  import opened RedBlackHeap

  class RbTree {
    var root: RbNode?
    var rotationCount: nat
    /** All nodes of the tree, and the tree they form. */
    ghost var nodes: set<RbNode>
    ghost var tree: NodeTree

    ghost function Snap(): Memory
      reads this`nodes, nodes
    {
      map r | r in nodes :: Fields(r.data, r.color, r.left, r.right, r.parent)
    }

    /** The pointers form exactly `tree`, whose root is black. */
    ghost predicate Valid()
      reads this, nodes
    {
      At(Snap(), Top, tree, root, root) && Nodes(tree) == nodes && !IsRed(tree)
    }

    constructor ()
      ensures Valid() && tree == Leaf && rotationCount == 0 && nodes == {}
    {
      root, rotationCount, nodes, tree := null, 0, {}, Leaf;
    }

    /** rotateright(y), field by field. */
    method RotateRight(y: RbNode)
      requires y in nodes && y.left != null && y.left in nodes && y.left != y
      requires y.left.right != null ==> y.left.right in nodes && y.left.right != y.parent
      requires y.parent != null ==> y.parent in nodes
      requires y.left.right != y && y.left.right != y.left && y.parent != y && y.parent != y.left
      modifies this`root, this`rotationCount, nodes`left, nodes`right, nodes`parent
      ensures var x := old(y.left);
              && x.right == y && x.left == old(y.left.left) && x.parent == old(y.parent)
              && y.left == old(y.left.right) && y.right == old(y.right) && y.parent == x
      ensures var b := old(y.left.right);
              b != null ==> b.parent == y && b.left == old(y.left.right.left) && b.right == old(y.left.right.right)
      ensures var p := old(y.parent);
              p != null ==>
                && p.parent == old(y.parent.parent)
                && p.left == (if y == old(y.parent.left) then old(y.left) else old(y.parent.left))
                && p.right == (if y == old(y.parent.left) then old(y.parent.right) else old(y.left))
      ensures forall r :: r in nodes && r != y && r != old(y.left) && r != old(y.left.right) && r != old(y.parent) ==>
                r.left == old(r.left) && r.right == old(r.right) && r.parent == old(r.parent)
      ensures root == if old(y.parent) == null then old(y.left) else old(root)
      ensures rotationCount == old(rotationCount) + 1
    {
      var x := y.left;
      y.left := x.right;
      if x.right != null {
        x.right.parent := y;
      }
      x.parent := y.parent;
      if y.parent == null {
        root := x;
      } else if y == y.parent.left {
        y.parent.left := x;
      } else {
        y.parent.right := x;
      }
      x.right := y;
      y.parent := x;
      rotationCount := rotationCount + 1;
    }

    /** rotateleft(x), field by field. */
    method RotateLeft(x: RbNode)
      requires x in nodes && x.right != null && x.right in nodes && x.right != x
      requires x.right.left != null ==> x.right.left in nodes && x.right.left != x.parent
      requires x.parent != null ==> x.parent in nodes
      requires x.right.left != x && x.right.left != x.right && x.parent != x && x.parent != x.right
      modifies this`root, this`rotationCount, nodes`left, nodes`right, nodes`parent
      ensures var y := old(x.right);
              && y.left == x && y.right == old(x.right.right) && y.parent == old(x.parent)
              && x.right == old(x.right.left) && x.left == old(x.left) && x.parent == y
      ensures var b := old(x.right.left);
              b != null ==> b.parent == x && b.left == old(x.right.left.left) && b.right == old(x.right.left.right)
      ensures var p := old(x.parent);
              p != null ==>
                && p.parent == old(x.parent.parent)
                && p.left == (if x == old(x.parent.left) then old(x.right) else old(x.parent.left))
                && p.right == (if x == old(x.parent.left) then old(x.parent.right) else old(x.right))
      ensures forall r :: r in nodes && r != x && r != old(x.right) && r != old(x.right.left) && r != old(x.parent) ==>
                r.left == old(r.left) && r.right == old(r.right) && r.parent == old(r.parent)
      ensures root == if old(x.parent) == null then old(x.right) else old(root)
      ensures rotationCount == old(rotationCount) + 1
    {
      var y := x.right;
      x.right := y.left;
      if y.left != null {
        y.left.parent := x;
      }
      y.parent := x.parent;
      if x.parent == null {
        root := y;
      } else if x == x.parent.left {
        x.parent.left := y;
      } else {
        x.parent.right := y;
      }
      y.left := x;
      x.parent := y;
      rotationCount := rotationCount + 1;
    }

    /** rotateright at the end of path `z`. */
    method RotateRightAt(y: RbNode, ghost z: NodePath, ghost t: NodeTree)
      requires At(Snap(), z, t, y, root) && t.Node? && t.left.Node?
      modifies this`root, this`rotationCount, nodes
      ensures At(Snap(), z, RightTurn(t), t.left.ref, root)
      ensures rotationCount == old(rotationCount) + 1
    {
      ghost var m, r := Snap(), root;
      RightStart(m, z, t, y, root);
      LeftParts(t);
      RotateRight(y);
      RightRotated(m, Snap(), z, t, y, r);
    }

    /** rotateleft at the end of path `z`. */
    method RotateLeftAt(x: RbNode, ghost z: NodePath, ghost t: NodeTree)
      requires At(Snap(), z, t, x, root) && t.Node? && t.right.Node?
      modifies this`root, this`rotationCount, nodes
      ensures At(Snap(), z, LeftTurn(t), t.right.ref, root)
      ensures rotationCount == old(rotationCount) + 1
    {
      ghost var m, r := Snap(), root;
      LeftStart(m, z, t, x, root);
      RightParts(t);
      RotateLeft(x);
      LeftRotated(m, Snap(), z, t, x, r);
    }

    method Paint(n: RbNode, c: Color)
      requires n in nodes
      modifies n`color
      ensures Snap() == SetColor(old(Snap()), n, c)
      ensures n.color == c
    {
      n.color := c;
    }

    /** The tail of a fix-up whose parent is a left child: paint parent and grandparent, rotate right. */
    method PaintAndRotateRight(parentnode: RbNode, grandparent: RbNode, ghost gp: NodePath, ghost t: NodeTree)
      requires parentnode in nodes && grandparent in nodes
      requires At(SetColor(SetColor(Snap(), parentnode, Black), grandparent, Red), gp, t, grandparent, root)
      requires t.Node? && t.left.Node?
      modifies this`root, this`rotationCount, nodes
      ensures At(Snap(), gp, RightTurn(t), t.left.ref, root)
      ensures rotationCount == old(rotationCount) + 1
    {
      Paint(parentnode, Black);
      Paint(grandparent, Red);
      RotateRightAt(grandparent, gp, t);
    }

    /** The fix-up when the parent is a left child and the uncle is not red. */
    method FixLeft(newnode: RbNode, parentnode: RbNode, grandparent: RbNode, ghost z: NodePath, ghost n: NodeTree)
      returns (next: RbNode)
      requires At(Snap(), z, n, newnode, root) && IsRed(n) && ParentRed(z) && z.up.InLeft? && !IsRed(Uncle(z))
      requires parentnode == z.ref && grandparent == z.up.ref
      modifies this`root, this`rotationCount, nodes
      ensures At(Snap(), z.up.up, Rotate(z, n), Rotate(z, n).ref, root)
      ensures rotationCount == old(rotationCount) + Rotations(z)
      ensures next in nodes && (next.color == Black || (next.parent == z.ref && z.ref in nodes && z.ref.color == Black))
    {
      next := newnode;
      Family(Snap(), z, n, newnode, root);
      if newnode == parentnode.right {
        next := parentnode;
        Up(Snap(), z, n, newnode, root);
        RotateLeftAt(next, z.up, Parent(z, n, z.color));
        InnerPainted(Snap(), z, n, newnode, root);
        PaintAndRotateRight(parentnode, grandparent, z.up.up, InnerRepainted(z, n));
        InnerEnds(Snap(), z, n, root);
      } else {
        OuterPainted(Snap(), z, n, newnode, root);
        PaintAndRotateRight(parentnode, grandparent, z.up.up, Repainted(z, n, Red, Black));
        OuterEnds(Snap(), z, n, root);
      }
    }

    /** The tail of a fix-up whose parent is a right child: paint parent and grandparent, rotate left. */
    method PaintAndRotateLeft(parentnode: RbNode, grandparent: RbNode, ghost gp: NodePath, ghost t: NodeTree)
      requires parentnode in nodes && grandparent in nodes
      requires At(SetColor(SetColor(Snap(), parentnode, Black), grandparent, Red), gp, t, grandparent, root)
      requires t.Node? && t.right.Node?
      modifies this`root, this`rotationCount, nodes
      ensures At(Snap(), gp, LeftTurn(t), t.right.ref, root)
      ensures rotationCount == old(rotationCount) + 1
    {
      Paint(parentnode, Black);
      Paint(grandparent, Red);
      RotateLeftAt(grandparent, gp, t);
    }

    /** The fix-up when the parent is a right child and the uncle is not red. */
    method FixRight(newnode: RbNode, parentnode: RbNode, grandparent: RbNode, ghost z: NodePath, ghost n: NodeTree)
      returns (next: RbNode)
      requires At(Snap(), z, n, newnode, root) && IsRed(n) && ParentRed(z) && z.up.InRight? && !IsRed(Uncle(z))
      requires parentnode == z.ref && grandparent == z.up.ref
      modifies this`root, this`rotationCount, nodes
      ensures At(Snap(), z.up.up, Rotate(z, n), Rotate(z, n).ref, root)
      ensures rotationCount == old(rotationCount) + Rotations(z)
      ensures next in nodes && (next.color == Black || (next.parent == z.ref && z.ref in nodes && z.ref.color == Black))
    {
      next := newnode;
      Family(Snap(), z, n, newnode, root);
      if newnode == parentnode.left {
        next := parentnode;
        Up(Snap(), z, n, newnode, root);
        RotateRightAt(next, z.up, Parent(z, n, z.color));
        InnerPainted(Snap(), z, n, newnode, root);
        PaintAndRotateLeft(parentnode, grandparent, z.up.up, InnerRepainted(z, n));
        InnerEnds(Snap(), z, n, root);
      } else {
        OuterPainted(Snap(), z, n, newnode, root);
        PaintAndRotateLeft(parentnode, grandparent, z.up.up, Repainted(z, n, Red, Black));
        OuterEnds(Snap(), z, n, root);
      }
    }

    /** Recolouring when the uncle is red. */
    method Recolouring(parentnode: RbNode, grandparent: RbNode, uncle: RbNode, ghost z: NodePath, ghost n: NodeTree, ghost x: RbNode)
      requires At(Snap(), z, n, x, root) && n.Node? && !z.Top? && !z.up.Top? && Uncle(z).Node?
      requires parentnode == z.ref && grandparent == z.up.ref && uncle == Uncle(z).ref
      modifies nodes
      ensures At(Snap(), z.up.up, Recolour(z, n), grandparent, root)
    {
      RecolouredMemory(Snap(), z, n, x, root);
      Family(Snap(), z, n, x, root);
      Paint(grandparent, Red);
      Paint(parentnode, Black);
      Paint(uncle, Black);
    }

    /** One turn of the fix-up loop. */
    method FixStep(newnode: RbNode, ghost z: NodePath, ghost n: NodeTree) returns (next: RbNode)
      requires At(Snap(), z, n, newnode, root) && IsRed(n) && ParentRed(z) && !z.up.Top?
      modifies this`root, this`rotationCount, nodes
      ensures next in nodes
      ensures if IsRed(Uncle(z)) then
                && At(Snap(), z.up.up, Recolour(z, n), next, root) && rotationCount == old(rotationCount)
              else
                && At(Snap(), z.up.up, Rotate(z, n), Rotate(z, n).ref, root)
                && rotationCount == old(rotationCount) + Rotations(z)
                && (next.color == Black || (next.parent != null && next.parent in nodes && next.parent.color == Black))
    {
      Family(Snap(), z, n, newnode, root);
      var parentnode := newnode.parent;
      var grandparent := parentnode.parent;
      if parentnode == grandparent.left {
        var uncle := grandparent.right;
        if uncle != null && uncle.color == Red {
          Recolouring(parentnode, grandparent, uncle, z, n, newnode);
          next := grandparent;
        } else {
          next := FixLeft(newnode, parentnode, grandparent, z, n);
        }
      } else {
        var uncle := grandparent.left;
        if uncle != null && uncle.color == Red {
          Recolouring(parentnode, grandparent, uncle, z, n, newnode);
          next := grandparent;
        } else {
          next := FixRight(newnode, parentnode, grandparent, z, n);
        }
      }
    }

    /** The fix-up loop: from a red node at `z` in a tree whose root is black, the loop ends, never
        follows a null grandparent, and leaves the tree that `Fix` describes. */
    method FixLoop(node: RbNode, ghost z: NodePath, ghost n: NodeTree)
      requires At(Snap(), z, n, node, root) && IsRed(n) && BlackTop(z)
      modifies this`root, this`rotationCount, nodes
      ensures At(Snap(), Top, Fix(z, n), root, root)
      ensures rotationCount == old(rotationCount) + Rotations(z)
    {
      var newnode := node;
      ghost var y, t, settled := z, n, false;
      Looks(Snap(), z, n, node, root);
      while newnode != root && newnode.color == Red && newnode.parent.color == Red
        invariant newnode in nodes
        invariant !settled ==> At(Snap(), y, t, newnode, root) && IsRed(t) && BlackTop(y) && Fix(y, t) == Fix(z, n)
        invariant !settled ==> rotationCount + Rotations(y) == old(rotationCount) + Rotations(z)
        invariant !settled ==> newnode.color == Red && (newnode == root <==> y.Top?) && newnode.parent == RefOf(y)
        invariant !settled && !y.Top? ==> y.ref in nodes && y.ref.color == y.color
        invariant settled ==> At(Snap(), Top, Fix(z, n), root, root) && rotationCount == old(rotationCount) + Rotations(z)
        invariant settled ==> newnode.color == Black || (newnode.parent != null && newnode.parent in nodes && newnode.parent.color == Black)
        decreases if settled then 0 else 1, y
      {
        var next := FixStep(newnode, y, t);
        if IsRed(Uncle(y)) {
          y, t := y.up.up, Recolour(y, t);
          Looks(Snap(), y, t, next, root);
        } else {
          settled := true;
          CloseUp(Snap(), y.up.up, Rotate(y, t), Rotate(y, t).ref, root);
        }
        newnode := next;
      }
      if !settled {
        CloseUp(Snap(), y, t, newnode, root);
      }
    }

    /** fixinsertion: the loop, then the root is painted black. */
    method FixInsertion(node: RbNode, ghost z: NodePath, ghost n: NodeTree)
      requires At(Snap(), z, n, node, root) && IsRed(n) && BlackTop(z)
      modifies this`root, this`rotationCount, nodes
      ensures At(Snap(), Top, Blacken(Fix(z, n)), root, root)
      ensures rotationCount == old(rotationCount) + Rotations(z)
    {
      FixLoop(node, z, n);
      FixIsNode(z, n);
      Looks(Snap(), Top, Fix(z, n), root, root);
      Painted(Snap(), Top, Fix(z, n), root, root, Black);
      Paint(root, Black);
    }

    /** The search for the insertion point. */
    method FindParent(data: int) returns (parentnode: RbNode?, ghost z: NodePath)
      requires Valid()
      ensures z == Descend(Top, tree, data) && At(Snap(), z, Leaf, null, root)
      ensures parentnode == RefOf(Descend(Top, tree, data))
      ensures !z.Top? ==> z.ref in nodes && z.ref.data == z.key && (z.InLeft? <==> data < z.key)
    {
      parentnode := null;
      var current := root;
      ghost var t := tree;
      z := Top;
      while current != null
        invariant At(Snap(), z, t, current, root) && parentnode == RefOf(z)
        invariant Descend(z, t, data) == Descend(Top, tree, data)
        invariant !z.Top? ==> z.ref in nodes && z.ref.data == z.key && (z.InLeft? <==> data < z.key)
        decreases t
      {
        parentnode := current;
        Looks(Snap(), z, t, current, root);
        DownLeft(Snap(), z, t, current, root);
        DownRight(Snap(), z, t, current, root);
        if data < current.data {
          current := current.left;
          z, t := InLeft(z, t.color, t.key, t.ref, t.right), t.left;
        } else {
          current := current.right;
          z, t := InRight(z, t.color, t.key, t.ref, t.left), t.right;
        }
      }
      ShapeRoot(Snap(), current, RefOf(z), t);
    }

    /** Links a new node below `parentnode`, on the side its key belongs. */
    method Attach(newnode: RbNode, parentnode: RbNode?, data: int, ghost z: NodePath)
      requires At(Snap(), z, Leaf, null, root) && parentnode == RefOf(z) && PathNodes(z) == nodes
      requires !z.Top? ==> z.ref in nodes && z.ref.data == z.key && (z.InLeft? <==> data < z.key)
      requires newnode !in nodes && newnode.data == data && newnode.color == Red && newnode.left == null && newnode.right == null
      modifies this`root, this`nodes, nodes, newnode
      ensures nodes == old(nodes) + {newnode}
      ensures At(Snap(), z, NewNode(data, newnode), newnode, root)
    {
      ghost var m, r := Snap(), root;
      newnode.parent := parentnode;
      if parentnode == null {
        root := newnode;
      } else if data < parentnode.data {
        parentnode.left := newnode;
      } else {
        parentnode.right := newnode;
      }
      nodes := nodes + {newnode};
      Attached(m, Snap(), z, newnode, data, r);
    }

    /** Descends, links the new node and fixes the tree up. */
    method Place(newnode: RbNode, data: int)
      requires At(Snap(), Top, tree, root, root) && Nodes(tree) == nodes && !IsRed(tree)
      requires newnode !in nodes && newnode.data == data && newnode.color == Red && newnode.left == null && newnode.right == null
      modifies this`root, this`nodes, this`rotationCount, nodes, newnode
      ensures nodes == old(nodes) + {newnode}
      ensures At(Snap(), Top, Insert(tree, data, newnode), root, root)
      ensures rotationCount == old(rotationCount) + Rotations(Descend(Top, tree, data))
    {
      var parentnode;
      ghost var z;
      parentnode, z := FindParent(data);
      assert BlackTop(z) && PathNodes(z) == nodes by { InsertParts(tree, data, newnode); }
      Attach(newnode, parentnode, data, z);
      FixInsertion(newnode, z, NewNode(data, newnode));
    }

    /** insertion: whatever the tree, the pointers afterwards form the tree that `Insert` describes. */
    method Insertion(data: int) returns (newnode: RbNode)
      requires Valid()
      modifies this, nodes
      ensures Valid() && fresh(newnode) && nodes == old(nodes) + {newnode}
      ensures tree == Insert(old(tree), data, newnode)
      ensures rotationCount == old(rotationCount) + Rotations(Descend(Top, old(tree), data))
      ensures rotationCount <= old(rotationCount) + 2
    {
      newnode := new RbNode(data);
      InsertParts(tree, data, newnode);
      Place(newnode, data);
      tree := Insert(tree, data, newnode);
    }

    /** The program's loop over its input: the tree lists the stable sort of the keys, with at most two
        rotations per key. */
    method Load(keys: seq<int>) returns (refs: seq<RbNode>)
      requires Valid() && tree == Leaf && rotationCount == 0
      modifies this, nodes
      ensures Valid() && |refs| == |keys| && tree == Build(keys, refs)
      ensures Inorder(tree) == StableSort(keys, refs)
      ensures rotationCount == TotalRotations(keys, refs) <= 2 * |keys|
    {
      refs := [];
      var i := 0;
      while i < |keys|
        invariant i == |refs| <= |keys| && Valid() && fresh(nodes - old(nodes))
        invariant tree == Build(keys[..i], refs) && rotationCount == TotalRotations(keys[..i], refs)
      {
        var newnode := Insertion(keys[i]);
        assert keys[..i + 1][..i] == keys[..i] && (refs + [newnode])[..i] == refs;
        refs := refs + [newnode];
        i := i + 1;
      }
      assert keys[..i] == keys;
      BuildIsStableSort(keys, refs);
      RotationsBounded(keys, refs);
    }
  }
}

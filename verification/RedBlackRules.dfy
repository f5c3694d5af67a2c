/** The colour rules: when insertion keeps them, when it breaks them, and what they buy. */
module RedBlackRules {
  import opened RedBlackModel

  /** Every path from the root of `t` to a leaf passes `h` black nodes. */
  ghost predicate BlackHeight<A>(t: Tree<A>, h: nat) {
    match t
    case Leaf => h == 0
    case Node(Red, _, _, left, right) => BlackHeight(left, h) && BlackHeight(right, h)
    case Node(Black, _, _, left, right) => h > 0 && BlackHeight(left, h - 1) && BlackHeight(right, h - 1)
  }

  /** No red node has a red child. */
  predicate NoRedRed<A>(t: Tree<A>) {
    t.Node? ==> (t.color.Red? ==> !IsRed(t.left) && !IsRed(t.right)) && NoRedRed(t.left) && NoRedRed(t.right)
  }

  /** The red-black rules. */
  ghost predicate Rules<A>(t: Tree<A>) {
    !IsRed(t) && NoRedRed(t) && exists h :: BlackHeight(t, h)
  }

  /** What the rules ask of a path whose hole takes a subtree of black height `h`. */
  ghost predicate PathRules<A>(z: Path<A>, h: nat)
    decreases z
  {
    match z
    case Top => true
    case InLeft(up, c, _, _, right) =>
      BlackHeight(right, h) && NoRedRed(right) && (c.Red? ==> !IsRed(right) && !ParentRed(up) && !up.Top?) &&
      PathRules(up, if c.Black? then h + 1 else h)
    case InRight(up, c, _, _, left) =>
      BlackHeight(left, h) && NoRedRed(left) && (c.Red? ==> !IsRed(left) && !ParentRed(up) && !up.Top?) &&
      PathRules(up, if c.Black? then h + 1 else h)
  }

  lemma {:induction false} HeightUnique<A>(t: Tree<A>, h: nat, h': nat)
    requires BlackHeight(t, h) && BlackHeight(t, h')
    ensures h == h'
  {
    if t.Node? {
      if t.color.Red? { HeightUnique(t.left, h, h'); } else { HeightUnique(t.left, h - 1, h' - 1); }
    }
  }

  /** Filling a well-formed hole with a fitting subtree gives a tree with a black height and no red-red
      edge, whose root is red only if the subtree was the whole tree. */
  lemma {:induction false} PlugRules<A>(z: Path<A>, t: Tree<A>, h: nat)
    requires PathRules(z, h) && BlackHeight(t, h) && NoRedRed(t) && (ParentRed(z) ==> !IsRed(t))
    ensures NoRedRed(Plug(z, t)) && exists H :: BlackHeight(Plug(z, t), H)
    ensures !z.Top? ==> !IsRed(Plug(z, t))
    decreases z
  {
    match z
    case Top =>
    case InLeft(up, c, k, r, right) =>
      PlugRules(up, Node(c, k, r, t, right), if c.Black? then h + 1 else h);
    case InRight(up, c, k, r, left) =>
      PlugRules(up, Node(c, k, r, left, t), if c.Black? then h + 1 else h);
  }

  lemma {:induction false} DescendRules<A>(z: Path<A>, t: Tree<A>, key: int, h: nat)
    requires PathRules(z, h) && BlackHeight(t, h) && NoRedRed(t)
    requires IsRed(t) ==> !ParentRed(z) && !z.Top?
    ensures PathRules(Descend(z, t, key), 0)
    decreases t
  {
    match t
    case Leaf =>
    case Node(c, k, r, left, right) =>
      var h' := if c.Black? then h - 1 else h;
      if key < k {
        DescendRules(InLeft(z, c, k, r, right), left, key, h');
      } else {
        DescendRules(InRight(z, c, k, r, left), right, key, h');
      }
  }

  lemma RecolourRules<A>(z: Path<A>, n: Tree<A>, h: nat)
    requires PathRules(z, h) && ParentRed(z) && !z.up.Top? && IsRed(Uncle(z))
    requires IsRed(n) && BlackHeight(n, h) && NoRedRed(n)
    ensures IsRed(Recolour(z, n)) && BlackHeight(Recolour(z, n), h + 1) && NoRedRed(Recolour(z, n))
    ensures PathRules(z.up.up, h + 1)
  {
    var u := Uncle(z);
    assert BlackHeight(Blacken(u), h + 1);
    assert BlackHeight(Parent(z, n, Black), h + 1);
  }

  lemma OuterRules<A>(z: Path<A>, n: Tree<A>, h: nat)
    requires PathRules(z, h) && ParentRed(z) && !z.up.Top? && !IsRed(Uncle(z)) && !IsInner(z)
    requires IsRed(n) && BlackHeight(n, h) && NoRedRed(n)
    ensures BlackHeight(Rotate(z, n), h + 1) && NoRedRed(Rotate(z, n)) && !IsRed(Rotate(z, n))
    ensures PathRules(z.up.up, h + 1)
  {
    var g := z.up;
    if g.InLeft? {
      assert BlackHeight(Node(Red, g.key, g.ref, z.right, g.right), h);
    } else {
      assert BlackHeight(Node(Red, g.key, g.ref, g.left, z.left), h);
    }
  }

  /** The inner case leaves two subtrees of different black height side by side. */
  lemma InnerUnbalanced<A>(z: Path<A>, n: Tree<A>, h: nat, any: nat)
    requires PathRules(z, h) && ParentRed(z) && !z.up.Top? && !IsRed(Uncle(z)) && IsInner(z)
    requires IsRed(n) && BlackHeight(n, h)
    ensures !BlackHeight(Rotate(z, n), any) && !BlackHeight(Blacken(Rotate(z, n)), any)
  {
    var t := Rotate(z, n);
    var g := z.up;
    forall a: nat
      ensures !(BlackHeight(t.left, a) && BlackHeight(t.right, a))
    {
      if BlackHeight(t.left, a) && BlackHeight(t.right, a) {
        if g.InLeft? {
          HeightUnique(t.left, a, h + 1);
          HeightUnique(t.right, a, h);
        } else {
          HeightUnique(t.left, a, h);
          HeightUnique(t.right, a, h + 1);
        }
      }
    }
  }

  lemma {:induction false} PlugUnbalanced<A>(z: Path<A>, t: Tree<A>, any: nat)
    requires t.Node? && forall h: nat :: !BlackHeight(t, h) && !BlackHeight(Blacken(t), h)
    ensures !BlackHeight(Blacken(Plug(z, t)), any) && !BlackHeight(Plug(z, t), any)
    decreases z
  {
    match z
    case Top =>
    case InLeft(up, c, k, r, right) => PlugUnbalanced(up, Node(c, k, r, t, right), any);
    case InRight(up, c, k, r, left) => PlugUnbalanced(up, Node(c, k, r, left, t), any);
  }

  /** The fix-up restores the rules exactly when it does not end in the inner-child case. */
  lemma {:induction false} FixRules<A>(z: Path<A>, n: Tree<A>, h: nat)
    requires PathRules(z, h) && IsRed(n) && BlackHeight(n, h) && NoRedRed(n)
    ensures Rules(Blacken(Fix(z, n))) <==> !EntersInner(z)
    decreases z
  {
    if !ParentRed(z) || z.up.Top? {
      PlugRules(z, n, h);
      BlackenRules(Plug(z, n));
    } else if IsRed(Uncle(z)) {
      RecolourRules(z, n, h);
      FixRules(z.up.up, Recolour(z, n), h + 1);
    } else if !IsInner(z) {
      OuterRules(z, n, h);
      PlugRules(z.up.up, Rotate(z, n), h + 1);
      BlackenRules(Plug(z.up.up, Rotate(z, n)));
    } else {
      forall any: nat
        ensures !BlackHeight(Rotate(z, n), any) && !BlackHeight(Blacken(Rotate(z, n)), any)
      {
        InnerUnbalanced(z, n, h, any);
      }
      forall any: nat
        ensures !BlackHeight(Blacken(Fix(z, n)), any)
      {
        PlugUnbalanced(z.up.up, Rotate(z, n), any);
      }
    }
  }

  lemma BlackenRules<A>(t: Tree<A>)
    requires NoRedRed(t) && exists H :: BlackHeight(t, H)
    ensures Rules(Blacken(t))
  {
    var H: nat :| BlackHeight(t, H);
    if IsRed(t) {
      assert BlackHeight(Blacken(t), H + 1);
    } else {
      assert BlackHeight(Blacken(t), H);
    }
  }

  /** Inserting into a tree that obeys the rules keeps them if and only if the fix-up does not end in
      the inner-child case, which shows on the path to the insertion point beforehand. */
  lemma InsertKeepsRulesIff<A>(t: Tree<A>, key: int, ref: A)
    requires Rules(t)
    ensures Rules(Insert(t, key, ref)) <==> !EntersInner(Descend(Top, t, key))
  {
    var h: nat :| BlackHeight(t, h);
    DescendRules(Top, t, key, h);
    FixRules(Descend(Top, t, key), NewNode(key, ref), 0);
  }

  /** Three insertions that break the rules: 3, 1, 2. */
  lemma InnerCaseBreaksRules()
    ensures var t := Insert(Insert(Leaf, 3, 'a'), 1, 'b'); Rules(t) && !Rules(Insert(t, 2, 'c'))
  {
    var a := Insert(Leaf, 3, 'a');
    assert a == Node(Black, 3, 'a', Leaf, Leaf);
    var t := Insert(a, 1, 'b');
    assert t == Node(Black, 3, 'a', Node(Red, 1, 'b', Leaf, Leaf), Leaf);
    assert BlackHeight(t, 1);
    InsertKeepsRulesIff(t, 2, 'c');
  }
}

/** The same insertion with one change: after the first rotation of the inner-child case the parent is read again,
    so the node that moved up is the one painted black. */
module RedBlackRepaired {
  import opened RedBlackModel
  import opened RedBlackOrder
  import opened RedBlackRules
  import opened RedBlackRuns

  /** The rotations, with the new parent painted black and the old one left red in the inner case. */
  function RotateReread<A>(z: Path<A>, n: Tree<A>): Tree<A>
    requires !z.Top? && !z.up.Top? && n.Node?
  {
    var t := Rotate(z, n);
    if !IsInner(z) then t
    else if z.up.InLeft? then t.(color := Black, left := t.left.(color := z.color))
    else t.(color := Black, right := t.right.(color := z.color))
  }

  function FixReread<A>(z: Path<A>, n: Tree<A>): Tree<A>
    requires n.Node?
    decreases z
  {
    if !ParentRed(z) || z.up.Top? then Plug(z, n)
    else if IsRed(Uncle(z)) then FixReread(z.up.up, Recolour(z, n))
    else Plug(z.up.up, RotateReread(z, n))
  }

  function InsertReread<A>(t: Tree<A>, key: int, ref: A): Tree<A> {
    Blacken(FixReread(Descend(Top, t, key), NewNode(key, ref)))
  }

  lemma InnerRules<A>(z: Path<A>, n: Tree<A>, h: nat)
    requires PathRules(z, h) && ParentRed(z) && !z.up.Top? && !IsRed(Uncle(z)) && IsInner(z)
    requires IsRed(n) && BlackHeight(n, h) && NoRedRed(n)
    ensures var t := RotateReread(z, n); BlackHeight(t, h + 1) && NoRedRed(t) && !IsRed(t)
    ensures PathRules(z.up.up, h + 1)
  {
    var t := RotateReread(z, n);
    assert BlackHeight(t.left, h) && BlackHeight(t.right, h);
  }

  lemma {:induction false} FixRereadRules<A>(z: Path<A>, n: Tree<A>, h: nat)
    requires PathRules(z, h) && IsRed(n) && BlackHeight(n, h) && NoRedRed(n)
    ensures Rules(Blacken(FixReread(z, n)))
    decreases z
  {
    if !ParentRed(z) || z.up.Top? {
      PlugRules(z, n, h);
      BlackenRules(Plug(z, n));
    } else if IsRed(Uncle(z)) {
      RecolourRules(z, n, h);
      FixRereadRules(z.up.up, Recolour(z, n), h + 1);
    } else {
      if IsInner(z) {
        InnerRules(z, n, h);
      } else {
        OuterRules(z, n, h);
      }
      PlugRules(z.up.up, RotateReread(z, n), h + 1);
      BlackenRules(Plug(z.up.up, RotateReread(z, n)));
    }
  }

  /** With the parent read again, every insertion keeps the rules. */
  lemma RereadKeepsRules<A>(t: Tree<A>, key: int, ref: A)
    requires Rules(t)
    ensures Rules(InsertReread(t, key, ref))
  {
    var h: nat :| BlackHeight(t, h);
    DescendRules(Top, t, key, h);
    FixRereadRules(Descend(Top, t, key), NewNode(key, ref), 0);
  }

  lemma PaintedInorder<A>(t: Tree<A>, c: Color)
    requires t.Node?
    ensures Inorder(t.(color := c)) == Inorder(t)
  {
  }

  lemma RotateRereadInorder<A>(z: Path<A>, n: Tree<A>)
    requires !z.Top? && !z.up.Top? && n.Node?
    ensures Inorder(RotateReread(z, n)) == Inorder(Rotate(z, n))
  {
    var t := Rotate(z, n);
    if IsInner(z) {
      if z.up.InLeft? {
        PaintedInorder(t.left, z.color);
      } else {
        PaintedInorder(t.right, z.color);
      }
    }
  }

  lemma {:induction false} FixRereadInorder<A>(z: Path<A>, n: Tree<A>)
    requires n.Node?
    ensures Inorder(FixReread(z, n)) == Inorder(Plug(z, n))
    decreases z
  {
    FixInorder(z, n);
    if ParentRed(z) && !z.up.Top? {
      if IsRed(Uncle(z)) {
        FixRereadInorder(z.up.up, Recolour(z, n));
        FixInorder(z.up.up, Recolour(z, n));
      } else {
        RotateRereadInorder(z, n);
        PlugInorder(z.up.up, Rotate(z, n));
        PlugInorder(z.up.up, RotateReread(z, n));
      }
    }
  }

  /** The repair changes colours only: the entries come out in the same order. */
  lemma RereadKeepsOrder<A>(t: Tree<A>, key: int, ref: A)
    ensures Inorder(InsertReread(t, key, ref)) == Inorder(Insert(t, key, ref))
  {
    var z, n := Descend(Top, t, key), NewNode(key, ref);
    FixRereadInorder(z, n);
    FixInorder(z, n);
    BlackenInorder(FixReread(z, n));
    BlackenInorder(Fix(z, n));
  }

  lemma BlackenInorder<A>(t: Tree<A>)
    ensures Inorder(Blacken(t)) == Inorder(t)
  {
    if t.Node? {
      PaintedInorder(t, Black);
    }
  }

  function BuildReread<A>(keys: seq<int>, refs: seq<A>): Tree<A>
    requires |refs| == |keys|
  {
    if keys == [] then Leaf
    else InsertReread(BuildReread(keys[..|keys| - 1], refs[..|refs| - 1]), keys[|keys| - 1], refs[|refs| - 1])
  }

  /** The entries still come out in the stable order of their keys. */
  lemma {:induction false} RereadIsStableSort<A>(keys: seq<int>, refs: seq<A>)
    requires |refs| == |keys|
    ensures Inorder(BuildReread(keys, refs)) == StableSort(keys, refs)
    decreases keys
  {
    if keys != [] {
      var n := |keys| - 1;
      RereadIsStableSort(keys[..n], refs[..n]);
      BuildIsStableSort(keys[..n], refs[..n]);
      var t := BuildReread(keys[..n], refs[..n]);
      RereadKeepsOrder(t, keys[n], refs[n]);
      var i := InsertIsStable(t, keys[n], refs[n]);
      InsertEntryAt(Inorder(t), (keys[n], refs[n]), i);
    }
  }

  /** Any sequence of keys, in any order, keeps the rules. */
  lemma {:induction false} BuildRereadRules<A>(keys: seq<int>, refs: seq<A>)
    requires |refs| == |keys|
    ensures Rules(BuildReread(keys, refs))
    decreases keys
  {
    if keys == [] {
      assert BlackHeight(BuildReread(keys, refs), 0);
    } else {
      BuildRereadRules(keys[..|keys| - 1], refs[..|refs| - 1]);
      RereadKeepsRules(BuildReread(keys[..|keys| - 1], refs[..|refs| - 1]), keys[|keys| - 1], refs[|refs| - 1]);
    }
  }

  /** So any sequence of keys builds a tree of logarithmic height. */
  lemma RereadHeight<A>(keys: seq<int>, refs: seq<A>)
    requires |refs| == |keys|
    ensures Pow2(Height(BuildReread(keys, refs))) <= (|keys| + 1) * (|keys| + 1)
  {
    var t := BuildReread(keys, refs);
    BuildRereadRules(keys, refs);
    HeightIsLogarithmic(t);
    SizeIsLength(t);
    RereadIsStableSort(keys, refs);
    StableSortLength(keys, refs);
  }
}

/** In-order contents: every insertion, whatever its fix-up, places the new entry after all entries
    with keys not above it and leaves the others in order. */
module RedBlackOrder {
  import opened RedBlackModel

  type Entries<A> = seq<(int, A)>

  function Inorder<A>(t: Tree<A>): Entries<A> {
    match t
    case Leaf => []
    case Node(_, k, r, left, right) => Inorder(left) + [(k, r)] + Inorder(right)
  }

  /** Entries to the left and to the right of a path's hole. */
  function Before<A>(z: Path<A>): Entries<A> {
    match z
    case Top => []
    case InLeft(up, _, _, _, _) => Before(up)
    case InRight(up, _, k, r, left) => Before(up) + Inorder(left) + [(k, r)]
  }

  function Following<A>(z: Path<A>): Entries<A> {
    match z
    case Top => []
    case InLeft(up, _, k, r, right) => [(k, r)] + Inorder(right) + Following(up)
    case InRight(up, _, _, _, _) => Following(up)
  }

  lemma HoleLeft<T>(b: seq<T>, t: seq<T>, x: seq<T>, r: seq<T>, f: seq<T>)
    ensures b + (t + x + r) + f == b + t + (x + r + f)
  {
  }

  lemma HoleRight<T>(b: seq<T>, l: seq<T>, x: seq<T>, t: seq<T>, f: seq<T>)
    ensures b + (l + x + t) + f == (b + l + x) + t + f
  {
  }

  lemma RotateSeq<T>(a: seq<T>, x: seq<T>, b: seq<T>, y: seq<T>, c: seq<T>)
    ensures (a + x + b) + y + c == a + x + (b + y + c)
  {
  }

  lemma {:induction false} PlugInorder<A>(z: Path<A>, t: Tree<A>)
    ensures Inorder(Plug(z, t)) == Before(z) + Inorder(t) + Following(z)
    decreases z
  {
    match z
    case Top =>
    case InLeft(up, c, k, r, right) =>
      PlugInorder(up, Node(c, k, r, t, right));
      HoleLeft(Before(up), Inorder(t), [(k, r)], Inorder(right), Following(up));
    case InRight(up, c, k, r, left) =>
      PlugInorder(up, Node(c, k, r, left, t));
      HoleRight(Before(up), Inorder(left), [(k, r)], Inorder(t), Following(up));
  }

  /** The grandparent's subtree as it is before the fix-up touches it. */
  function Grandparent<A>(z: Path<A>, n: Tree<A>): Tree<A>
    requires !z.Top? && !z.up.Top?
  {
    var g := z.up;
    if g.InLeft? then Node(g.color, g.key, g.ref, Parent(z, n, z.color), g.right)
    else Node(g.color, g.key, g.ref, g.left, Parent(z, n, z.color))
  }

  lemma PlugGrandparent<A>(z: Path<A>, n: Tree<A>)
    requires !z.Top? && !z.up.Top?
    ensures Plug(z.up.up, Grandparent(z, n)) == Plug(z, n)
  {
  }

  lemma RecolourInorder<A>(z: Path<A>, n: Tree<A>)
    requires !z.Top? && !z.up.Top?
    ensures Inorder(Recolour(z, n)) == Inorder(Grandparent(z, n))
  {
  }

  lemma OuterInorder<A>(z: Path<A>, n: Tree<A>)
    requires !z.Top? && !z.up.Top? && n.Node? && !IsInner(z)
    ensures Inorder(Rotate(z, n)) == Inorder(Grandparent(z, n))
  {
    var g := z.up;
    if g.InLeft? {
      RotateSeq(Inorder(n), [(z.key, z.ref)], Inorder(z.right), [(g.key, g.ref)], Inorder(g.right));
    } else {
      RotateSeq(Inorder(g.left), [(g.key, g.ref)], Inorder(z.left), [(z.key, z.ref)], Inorder(n));
    }
  }

  lemma InnerInorder<A>(z: Path<A>, n: Tree<A>)
    requires !z.Top? && !z.up.Top? && n.Node? && IsInner(z)
    ensures Inorder(Rotate(z, n)) == Inorder(Grandparent(z, n))
  {
    var g := z.up;
    var x, y, w := [(z.key, z.ref)], [(n.key, n.ref)], [(g.key, g.ref)];
    var a, b := Inorder(n.left), Inorder(n.right);
    assert Inorder(n) == a + y + b;
    if g.InLeft? {
      var l, c := Inorder(z.left), Inorder(g.right);
      assert Inorder(Parent(z, n, z.color)) == l + x + Inorder(n);
      RotateSeq(l, x, a, y, b);
      RotateSeq(l + x + a, y, b, w, c);
    } else {
      var l, c := Inorder(g.left), Inorder(z.right);
      assert Inorder(Parent(z, n, z.color)) == Inorder(n) + x + c;
      RotateSeq(a, y, b, x, c);
      RotateSeq(l, w, a, y, b + x + c);
    }
  }

  /** No case of the fix-up reorders anything. */
  lemma {:induction false} FixInorder<A>(z: Path<A>, n: Tree<A>)
    requires n.Node?
    ensures Inorder(Fix(z, n)) == Inorder(Plug(z, n))
    decreases z
  {
    if !ParentRed(z) || z.up.Top? {
    } else {
      PlugGrandparent(z, n);
      PlugInorder(z.up.up, Grandparent(z, n));
      if IsRed(Uncle(z)) {
        RecolourInorder(z, n);
        PlugInorder(z.up.up, Recolour(z, n));
        FixInorder(z.up.up, Recolour(z, n));
      } else {
        if IsInner(z) { InnerInorder(z, n); } else { OuterInorder(z, n); }
        PlugInorder(z.up.up, Rotate(z, n));
      }
    }
  }

  ghost predicate AllAtMost<A>(s: Entries<A>, key: int) {
    forall i :: 0 <= i < |s| ==> s[i].0 <= key
  }

  ghost predicate AllAbove<A>(s: Entries<A>, key: int) {
    forall i :: 0 <= i < |s| ==> s[i].0 > key
  }

  ghost predicate Sorted<A>(s: Entries<A>) {
    forall i, j :: 0 <= i < j < |s| ==> s[i].0 <= s[j].0
  }

  lemma SortedParts<A>(left: Entries<A>, x: (int, A), right: Entries<A>)
    requires Sorted(left + [x] + right)
    ensures Sorted(left) && Sorted(right)
    ensures forall i :: 0 <= i < |left| ==> left[i].0 <= x.0
    ensures forall i :: 0 <= i < |right| ==> x.0 <= right[i].0
  {
    var s, l := left + [x] + right, |left|;
    assert s[l] == x;
    forall i | 0 <= i < |left|
      ensures left[i].0 <= x.0
    {
      assert s[i] == left[i];
    }
    forall i | 0 <= i < |right|
      ensures x.0 <= right[i].0
    {
      assert s[l + 1 + i] == right[i];
    }
    assert left == s[..l] && right == s[l + 1..];
  }

  /** The search ends between the entries not above `key` and those above it. */
  lemma {:induction false} DescendSplits<A>(z: Path<A>, t: Tree<A>, key: int)
    requires Sorted(Inorder(t)) && AllAtMost(Before(z), key) && AllAbove(Following(z), key)
    ensures AllAtMost(Before(Descend(z, t, key)), key) && AllAbove(Following(Descend(z, t, key)), key)
    decreases t
  {
    match t
    case Leaf =>
    case Node(c, k, r, left, right) =>
      SortedParts(Inorder(left), (k, r), Inorder(right));
      if key < k {
        DescendSplits(InLeft(z, c, k, r, right), left, key);
      } else {
        DescendSplits(InRight(z, c, k, r, left), right, key);
      }
  }

  /** The search only opens the tree up. */
  lemma {:induction false} DescendPlugs<A>(z: Path<A>, t: Tree<A>, key: int)
    ensures Plug(Descend(z, t, key), Leaf) == Plug(z, t)
    decreases t
  {
    match t
    case Leaf =>
    case Node(c, k, r, left, right) =>
      if key < k {
        DescendPlugs(InLeft(z, c, k, r, right), left, key);
      } else {
        DescendPlugs(InRight(z, c, k, r, left), right, key);
      }
  }

  lemma StableSplit<A>(s: Entries<A>, b: Entries<A>, f: Entries<A>, x: (int, A))
    requires s == b + f && Sorted(s) && AllAtMost(b, x.0) && AllAbove(f, x.0)
    ensures s[..|b|] == b && s[|b|..] == f
    ensures Sorted(b + [x] + f)
  {
    assert forall i :: 0 <= i < |b| ==> s[i] == b[i];
    assert forall i :: 0 <= i < |f| ==> s[|b| + i] == f[i];
  }

  /** Stable sorted insertion, through every case of the fix-up. */
  lemma InsertIsStable<A>(t: Tree<A>, key: int, ref: A) returns (i: nat)
    requires Sorted(Inorder(t))
    ensures i <= |Inorder(t)|
    ensures AllAtMost(Inorder(t)[..i], key) && AllAbove(Inorder(t)[i..], key)
    ensures Inorder(Insert(t, key, ref)) == Inorder(t)[..i] + [(key, ref)] + Inorder(t)[i..]
    ensures Sorted(Inorder(Insert(t, key, ref)))
  {
    var z := Descend(Top, t, key);
    var n := NewNode(key, ref);
    DescendSplits(Top, t, key);
    DescendPlugs(Top, t, key);
    PlugInorder(z, Leaf);
    PlugInorder(z, n);
    FixInorder(z, n);
    assert Inorder(n) == [(key, ref)];
    assert Before(z) + [] + Following(z) == Before(z) + Following(z);
    StableSplit(Inorder(t), Before(z), Following(z), (key, ref));
    i := |Before(z)|;
  }
}

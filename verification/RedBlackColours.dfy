/** Which nodes an insertion repaints and which links it changes, node by node. */
module RedBlackColours {
  import opened Options
  import opened RedBlackModel
  import opened RedBlackOrder
  import opened RedBlackRuns

  // ----- nodes, their colours and their children

  ghost function Refs<A>(t: Tree<A>): set<A> {
    if t.Leaf? then {} else {t.ref} + Refs(t.left) + Refs(t.right)
  }

  /** No node occurs twice. */
  ghost predicate Distinct<A>(t: Tree<A>) {
    t.Node? ==>
      && t.ref !in Refs(t.left) && t.ref !in Refs(t.right) && Refs(t.left) !! Refs(t.right)
      && Distinct(t.left) && Distinct(t.right)
  }

  ghost predicate HasColor<A>(t: Tree<A>, r: A, c: Color) {
    t.Node? && ((t.ref == r && t.color == c) || HasColor(t.left, r, c) || HasColor(t.right, r, c))
  }

  ghost function RootOf<A>(t: Tree<A>): Option<A> {
    if t.Leaf? then None else Some(t.ref)
  }

  /** The child of node `p` on the given side, `None` for a leaf. */
  ghost predicate HasChild<A>(t: Tree<A>, p: A, left: bool, c: Option<A>) {
    t.Node? &&
    ((t.ref == p && RootOf(if left then t.left else t.right) == c) || HasChild(t.left, p, left, c) || HasChild(t.right, p, left, c))
  }

  // ----- the same for a path

  ghost function PathRefs<A>(z: Path<A>): set<A> {
    match z
    case Top => {}
    case InLeft(up, _, _, r, right) => {r} + Refs(right) + PathRefs(up)
    case InRight(up, _, _, r, left) => {r} + Refs(left) + PathRefs(up)
  }

  ghost predicate PathColor<A>(z: Path<A>, r: A, c: Color) {
    match z
    case Top => false
    case InLeft(up, zc, _, zr, right) => (zr == r && zc == c) || HasColor(right, r, c) || PathColor(up, r, c)
    case InRight(up, zc, _, zr, left) => (zr == r && zc == c) || HasColor(left, r, c) || PathColor(up, r, c)
  }

  /** Children along a path whose hole holds a subtree with root `hole`. */
  ghost predicate PathChild<A>(z: Path<A>, hole: Option<A>, p: A, left: bool, c: Option<A>) {
    match z
    case Top => false
    case InLeft(up, _, _, zr, right) =>
      || (zr == p && c == (if left then hole else RootOf(right)))
      || HasChild(right, p, left, c) || PathChild(up, Some(zr), p, left, c)
    case InRight(up, _, _, zr, l) =>
      || (zr == p && c == (if left then RootOf(l) else hole))
      || HasChild(l, p, left, c) || PathChild(up, Some(zr), p, left, c)
  }

  lemma {:induction false} PlugColor<A>(z: Path<A>, t: Tree<A>, r: A, c: Color)
    ensures HasColor(Plug(z, t), r, c) <==> PathColor(z, r, c) || HasColor(t, r, c)
    decreases z
  {
    match z
    case Top =>
    case InLeft(up, zc, k, zr, right) => PlugColor(up, Node(zc, k, zr, t, right), r, c);
    case InRight(up, zc, k, zr, left) => PlugColor(up, Node(zc, k, zr, left, t), r, c);
  }

  lemma {:induction false} PlugChild<A>(z: Path<A>, t: Tree<A>, p: A, left: bool, c: Option<A>)
    ensures HasChild(Plug(z, t), p, left, c) <==> PathChild(z, RootOf(t), p, left, c) || HasChild(t, p, left, c)
    decreases z
  {
    match z
    case Top =>
    case InLeft(up, zc, k, zr, right) => PlugChild(up, Node(zc, k, zr, t, right), p, left, c);
    case InRight(up, zc, k, zr, l) => PlugChild(up, Node(zc, k, zr, l, t), p, left, c);
  }

  lemma {:induction false} PlugDistinct<A>(z: Path<A>, t: Tree<A>)
    requires Distinct(Plug(z, t))
    ensures Distinct(t) && PathRefs(z) !! Refs(t)
    decreases z
  {
    match z
    case Top =>
    case InLeft(up, zc, k, zr, right) => PlugDistinct(up, Node(zc, k, zr, t, right));
    case InRight(up, zc, k, zr, left) => PlugDistinct(up, Node(zc, k, zr, left, t));
  }

  /** A subtree may be exchanged for another with the same nodes. */
  lemma {:induction false} PlugOther<A>(z: Path<A>, t: Tree<A>, t': Tree<A>)
    requires Distinct(Plug(z, t)) && Distinct(t') && Refs(t') == Refs(t)
    ensures Distinct(Plug(z, t')) && Refs(Plug(z, t')) == Refs(Plug(z, t))
    decreases z
  {
    PlugDistinct(z, t);
    match z
    case Top =>
    case InLeft(up, zc, k, zr, right) =>
      PlugDistinct(up, Node(zc, k, zr, t, right));
      PlugOther(up, Node(zc, k, zr, t, right), Node(zc, k, zr, t', right));
    case InRight(up, zc, k, zr, left) =>
      PlugDistinct(up, Node(zc, k, zr, left, t));
      PlugOther(up, Node(zc, k, zr, left, t), Node(zc, k, zr, left, t'));
  }

  lemma {:induction false} ColorIsRef<A>(t: Tree<A>, r: A, c: Color)
    requires HasColor(t, r, c)
    ensures r in Refs(t)
  {
    if t.ref != r {
      if HasColor(t.left, r, c) { ColorIsRef(t.left, r, c); } else { ColorIsRef(t.right, r, c); }
    }
  }

  lemma {:induction false} PathColorIsRef<A>(z: Path<A>, r: A, c: Color)
    requires PathColor(z, r, c)
    ensures r in PathRefs(z)
    decreases z
  {
    var side := if z.InLeft? then z.right else z.left;
    if HasColor(side, r, c) {
      ColorIsRef(side, r, c);
    } else if z.ref != r {
      PathColorIsRef(z.up, r, c);
    }
  }

  // ----- the climb past red uncles

  /** The fix-up at `z` recolours and climbs. */
  ghost predicate Climbs<A>(z: Path<A>) {
    ParentRed(z) && !z.up.Top? && IsRed(Uncle(z))
  }

  /** The fix-up at `z` rotates. */
  ghost predicate Turns<A>(z: Path<A>) {
    ParentRed(z) && !z.up.Top? && !IsRed(Uncle(z))
  }

  /** Where the climb ends. */
  ghost function End<A>(z: Path<A>): (e: Path<A>)
    ensures !Climbs(e)
    decreases z
  {
    if Climbs(z) then End(z.up.up) else z
  }

  /** The node that stands there: the one the fix-up began with, or the last grandparent. */
  ghost function EndNode<A>(z: Path<A>, r: A): A
    decreases z
  {
    if Climbs(z) then EndNode(z.up.up, z.up.ref) else r
  }

  /** Parents and uncles on the way, and the parent where it ends in a rotation, turn black. */
  ghost function Blackened<A>(z: Path<A>): set<A>
    decreases z
  {
    if Climbs(z) then {z.ref, Uncle(z).ref} + Blackened(z.up.up) else if Turns(z) then {z.ref} else {}
  }

  /** Grandparents turn red. */
  ghost function Reddened<A>(z: Path<A>): set<A>
    decreases z
  {
    if Climbs(z) then {z.up.ref} + Reddened(z.up.up) else if Turns(z) then {z.up.ref} else {}
  }

  ghost function Repainted<A>(z: Path<A>, r: A, c: Color): Color {
    if r in Reddened(z) then Red else if r in Blackened(z) then Black else c
  }

  lemma {:induction false} RepaintedOnPath<A>(z: Path<A>)
    ensures Blackened(z) <= PathRefs(z) && Reddened(z) <= PathRefs(z)
    decreases z
  {
    if Climbs(z) {
      RepaintedOnPath(z.up.up);
    }
  }

  lemma GrandparentRefs<A>(z: Path<A>, n: Tree<A>)
    requires !z.Top? && !z.up.Top?
    ensures Refs(Recolour(z, n)) == Refs(Grandparent(z, n))
    ensures Distinct(Recolour(z, n)) <==> Distinct(Grandparent(z, n))
  {
  }

  /** The other child of the parent. */
  ghost function Sibling<A>(z: Path<A>): Tree<A>
    requires !z.Top?
  {
    if z.InLeft? then z.right else z.left
  }

  /** The pieces a rotation puts together. */
  lemma Pieces<A>(z: Path<A>, n: Tree<A>)
    requires !z.Top? && !z.up.Top? && n.Node? && Distinct(Grandparent(z, n))
    ensures Distinct(Parent(z, n, z.color)) && Distinct(n)
    ensures z.up.ref !in Refs(Parent(z, n, z.color)) && z.ref !in Refs(n) && z.up.ref != z.ref
    ensures Refs(n) <= Refs(Parent(z, n, z.color))
    ensures Refs(Uncle(z)) !! Refs(Parent(z, n, z.color)) && z.up.ref !in Refs(Uncle(z)) && Distinct(Uncle(z))
    ensures Refs(Sibling(z)) !! Refs(n) && z.ref !in Refs(Sibling(z)) && Distinct(Sibling(z))
    ensures Refs(Sibling(z)) <= Refs(Parent(z, n, z.color)) && z.ref in Refs(Parent(z, n, z.color))
  {
  }

  lemma RotateRefs<A>(z: Path<A>, n: Tree<A>)
    requires !z.Top? && !z.up.Top? && n.Node? && Distinct(Grandparent(z, n))
    ensures Refs(Rotate(z, n)) == Refs(Grandparent(z, n)) && Distinct(Rotate(z, n))
  {
    Pieces(z, n);
    var t := Rotate(z, n);
    assert Distinct(t.left) && Distinct(t.right);
  }

  /** The fix-up keeps the nodes, each once. */
  lemma {:induction false} FixDistinct<A>(z: Path<A>, n: Tree<A>)
    requires n.Node? && Distinct(Plug(z, n))
    ensures Distinct(Fix(z, n)) && Refs(Fix(z, n)) == Refs(Plug(z, n))
    decreases z
  {
    if Climbs(z) || Turns(z) {
      PlugGrandparent(z, n);
      PlugDistinct(z.up.up, Grandparent(z, n));
      if Climbs(z) {
        RecolourDistinct(z, n);
        FixDistinct(z.up.up, Recolour(z, n));
      } else {
        RotateRefs(z, n);
        PlugOther(z.up.up, Grandparent(z, n), Rotate(z, n));
      }
    }
  }

  // ----- colours

  lemma {:induction false} NoColor<A>(t: Tree<A>, r: A)
    requires r !in Refs(t)
    ensures forall c :: !HasColor(t, r, c)
  {
    if t.Node? {
      NoColor(t.left, r);
      NoColor(t.right, r);
    }
  }

  lemma ParentColor<A>(z: Path<A>, n: Tree<A>, p: Color, r: A, c: Color)
    requires !z.Top?
    ensures HasColor(Parent(z, n, p), r, c) <==> (r == z.ref && c == p) || HasColor(n, r, c) || HasColor(Sibling(z), r, c)
  {
  }

  lemma GrandparentColor<A>(z: Path<A>, n: Tree<A>, r: A, c: Color)
    requires !z.Top? && !z.up.Top?
    ensures HasColor(Grandparent(z, n), r, c) <==>
            || (r == z.up.ref && c == z.up.color) || (r == z.ref && c == z.color)
            || HasColor(n, r, c) || HasColor(Sibling(z), r, c) || HasColor(Uncle(z), r, c)
  {
    ParentColor(z, n, z.color, r, c);
  }

  lemma RotateColor<A>(z: Path<A>, n: Tree<A>, r: A, c: Color)
    requires Turns(z) && n.Node?
    ensures HasColor(Rotate(z, n), r, c) <==>
            || (r == z.up.ref && c == Red) || (r == z.ref && c == Black)
            || HasColor(n, r, c) || HasColor(Sibling(z), r, c) || HasColor(Uncle(z), r, c)
  {
    var t := Rotate(z, n);
    assert HasColor(t, r, c) <==> (r == t.ref && c == t.color) || HasColor(t.left, r, c) || HasColor(t.right, r, c);
    assert HasColor(n, r, c) <==> (r == n.ref && c == n.color) || HasColor(n.left, r, c) || HasColor(n.right, r, c);
  }

  /** What recolouring does to the grandparent's subtree. */
  lemma RecolourColors<A>(z: Path<A>, n: Tree<A>, r: A, c: Color)
    requires Climbs(z) && n.Node? && Distinct(Grandparent(z, n))
    ensures HasColor(Recolour(z, n), r, c) <==>
            if r == z.up.ref then c == Red else if r == z.ref || r == Uncle(z).ref then c == Black
            else HasColor(Grandparent(z, n), r, c)
  {
    Pieces(z, n);
    var s, u := Sibling(z), Uncle(z);
    ParentColor(z, n, Black, r, c);
    GrandparentColor(z, n, r, c);
    assert HasColor(u, r, c) <==> (r == u.ref && c == Red) || HasColor(u.left, r, c) || HasColor(u.right, r, c);
    assert HasColor(Blacken(u), r, c) <==> (r == u.ref && c == Black) || HasColor(u.left, r, c) || HasColor(u.right, r, c);
    if r in {z.up.ref, z.ref, u.ref} {
      NoColor(n, r);
      NoColor(s, r);
      NoColor(u.left, r);
      NoColor(u.right, r);
    }
  }

  lemma RotateColors<A>(z: Path<A>, n: Tree<A>, r: A, c: Color)
    requires Turns(z) && n.Node? && Distinct(Grandparent(z, n))
    ensures HasColor(Rotate(z, n), r, c) <==>
            if r == z.up.ref then c == Red else if r == z.ref then c == Black else HasColor(Grandparent(z, n), r, c)
  {
    Pieces(z, n);
    GrandparentColor(z, n, r, c);
    RotateColor(z, n, r, c);
    if r in {z.up.ref, z.ref} {
      NoColor(n, r);
      NoColor(Sibling(z), r);
      NoColor(Uncle(z), r);
    }
  }

  /** The fix-up paints exactly those nodes and leaves every other node its colour. */
  lemma {:induction false} FixColors<A>(z: Path<A>, n: Tree<A>, r: A, c: Color)
    requires n.Node? && Distinct(Plug(z, n))
    ensures HasColor(Fix(z, n), r, c) <==>
            if r in Reddened(z) then c == Red else if r in Blackened(z) then c == Black else HasColor(Plug(z, n), r, c)
    decreases z
  {
    if Climbs(z) || Turns(z) {
      var up, t := z.up.up, Grandparent(z, n);
      PlugGrandparent(z, n);
      PlugDistinct(up, t);
      PlugColor(up, t, r, c);
      var now := if Climbs(z) then Recolour(z, n) else Rotate(z, n);
      PlugColor(up, now, r, c);
      if r in PathRefs(up) {
        NoColor(t, r);
        NoColor(now, r);
      } else if PathColor(up, r, c) {
        PathColorIsRef(up, r, c);
      }
      RepaintedOnPath(up);
      if Climbs(z) {
        GrandparentRefs(z, n);
        PlugOther(up, t, now);
        RecolourColors(z, n, r, c);
        FixColors(up, now, r, c);
      } else {
        RotateRefs(z, n);
        RotateColors(z, n, r, c);
      }
    }
  }

  // ----- children

  lemma {:induction false} NoChild<A>(t: Tree<A>, p: A)
    requires p !in Refs(t)
    ensures forall left, c :: !HasChild(t, p, left, c)
  {
    if t.Node? {
      NoChild(t.left, p);
      NoChild(t.right, p);
    }
  }

  lemma {:induction false} NoPathChild<A>(z: Path<A>, hole: Option<A>, p: A)
    requires p !in PathRefs(z)
    ensures forall left, c :: !PathChild(z, hole, p, left, c)
    decreases z
  {
    if !z.Top? {
      NoChild(Sibling(z), p);
      NoPathChild(z.up, Some(z.ref), p);
    }
  }

  lemma {:induction false} ChildIsRef<A>(t: Tree<A>, p: A, left: bool, c: A)
    requires HasChild(t, p, left, Some(c))
    ensures c in Refs(t)
  {
    if !(t.ref == p && RootOf(if left then t.left else t.right) == Some(c)) {
      if HasChild(t.left, p, left, Some(c)) { ChildIsRef(t.left, p, left, c); } else { ChildIsRef(t.right, p, left, c); }
    }
  }

  /** Another root in the hole is another child of the node above it, and nothing else. */
  lemma {:induction false} PathRenamed<A>(z: Path<A>, g: A, top: A, p: A, left: bool, c: Option<A>)
    requires g !in PathRefs(z) && top !in PathRefs(z)
    ensures c != Some(g) && c != Some(top) ==> (PathChild(z, Some(top), p, left, c) <==> PathChild(z, Some(g), p, left, c))
    ensures PathChild(z, Some(top), p, left, Some(top)) <==> PathChild(z, Some(g), p, left, Some(g))
    decreases z
  {
    if !z.Top? {
      var s := Sibling(z);
      if HasChild(s, p, left, Some(g)) { ChildIsRef(s, p, left, g); }
      if HasChild(s, p, left, Some(top)) { ChildIsRef(s, p, left, top); }
      PathNotChild(z.up, z.ref, g, p, left);
      PathNotChild(z.up, z.ref, top, p, left);
    }
  }

  lemma {:induction false} PathNotChild<A>(z: Path<A>, hole: A, g: A, p: A, left: bool)
    requires g !in PathRefs(z) && g != hole
    ensures !PathChild(z, Some(hole), p, left, Some(g))
    decreases z
  {
    if !z.Top? {
      if HasChild(Sibling(z), p, left, Some(g)) { ChildIsRef(Sibling(z), p, left, g); }
      PathNotChild(z.up, z.ref, g, p, left);
    }
  }

  /** Who hangs where in the grandparent's subtree before the fix-up. */
  lemma GrandparentChild<A>(z: Path<A>, n: Tree<A>, p: A, left: bool, c: Option<A>)
    requires !z.Top? && !z.up.Top? && n.Node?
    ensures HasChild(Grandparent(z, n), p, left, c) <==>
            || (p == z.up.ref && c == if left == z.up.InLeft? then Some(z.ref) else RootOf(Uncle(z)))
            || (p == z.ref && c == if left == z.InLeft? then Some(n.ref) else RootOf(Sibling(z)))
            || (p == n.ref && c == RootOf(if left then n.left else n.right))
            || HasChild(n.left, p, left, c) || HasChild(n.right, p, left, c)
            || HasChild(Sibling(z), p, left, c) || HasChild(Uncle(z), p, left, c)
  {
    var t := Parent(z, n, z.color);
    assert HasChild(t, p, left, c) <==>
           || (p == z.ref && c == if left == z.InLeft? then Some(n.ref) else RootOf(Sibling(z)))
           || HasChild(n, p, left, c) || HasChild(Sibling(z), p, left, c);
  }

  /** And after a rotation: the node under the grandparent, or under the parent. */
  lemma RotateChild<A>(z: Path<A>, n: Tree<A>, p: A, left: bool, c: Option<A>)
    requires Turns(z) && n.Node?
    ensures var side := left == z.up.InLeft?;
            HasChild(Rotate(z, n), p, left, c) <==>
            || (p == z.up.ref && c == if !side then RootOf(Uncle(z)) else if !IsInner(z) then RootOf(Sibling(z))
                                      else RootOf(if left then n.right else n.left))
            || (p == z.ref && c == if !IsInner(z) then (if side then Some(n.ref) else Some(z.up.ref))
                                   else if side then RootOf(Sibling(z)) else RootOf(if left then n.right else n.left))
            || (p == n.ref && c == if !IsInner(z) then RootOf(if left then n.left else n.right)
                                   else if side then Some(z.ref) else Some(z.up.ref))
            || HasChild(n.left, p, left, c) || HasChild(n.right, p, left, c)
            || HasChild(Sibling(z), p, left, c) || HasChild(Uncle(z), p, left, c)
  {
    var t := Rotate(z, n);
    assert HasChild(t, p, left, c) <==>
           || (p == t.ref && c == RootOf(if left then t.left else t.right))
           || HasChild(t.left, p, left, c) || HasChild(t.right, p, left, c);
  }

  /** The children of the three nodes a rotation moves, told by the children in the tree before: in the outer case the
      parent comes out on top, between the node and the grandparent; in the inner case the node does, between parent and
      grandparent, which take over its children. */
  ghost predicate Turned<A>(was: Tree<A>, now: Tree<A>, z: Path<A>, m: A, p: A, left: bool, c: Option<A>)
    requires Turns(z)
  {
    var side, parent, grand := left == z.up.InLeft?, z.ref, z.up.ref;
    && (p == parent ==> (HasChild(now, p, left, c) <==>
          if !IsInner(z) then c == Some(if side then m else grand)
          else if side then HasChild(was, parent, left, c) else HasChild(was, m, !left, c)))
    && (p == grand ==> (HasChild(now, p, left, c) <==>
          if !side then HasChild(was, grand, left, c)
          else if IsInner(z) then HasChild(was, m, !left, c) else HasChild(was, parent, !left, c)))
    && (p == m ==> (HasChild(now, p, left, c) <==>
          if IsInner(z) then c == Some(if side then parent else grand) else HasChild(was, m, left, c)))
  }

  lemma AloneChild<A>(z: Path<A>, n: Tree<A>, p: A, left: bool, c: Option<A>)
    requires !z.Top? && !z.up.Top? && n.Node? && Distinct(Grandparent(z, n)) && p in {n.ref, z.ref, z.up.ref}
    ensures !HasChild(n.left, p, left, c) && !HasChild(n.right, p, left, c)
    ensures !HasChild(Sibling(z), p, left, c) && !HasChild(Uncle(z), p, left, c)
  {
    Pieces(z, n);
    NoChild(n.left, p);
    NoChild(n.right, p);
    NoChild(Sibling(z), p);
    NoChild(Uncle(z), p);
  }

  lemma TurnedHere<A>(z: Path<A>, n: Tree<A>, p: A, left: bool, c: Option<A>)
    requires Turns(z) && n.Node? && Distinct(Grandparent(z, n))
    ensures Turned(Grandparent(z, n), Rotate(z, n), z, n.ref, p, left, c)
    ensures p !in {n.ref, z.ref, z.up.ref} ==> (HasChild(Rotate(z, n), p, left, c) <==> HasChild(Grandparent(z, n), p, left, c))
  {
    Pieces(z, n);
    RotateChild(z, n, p, left, c);
    GrandparentChild(z, n, p, left, c);
    if p in {n.ref, z.ref, z.up.ref} {
      AloneChild(z, n, p, left, c);
      AloneChild(z, n, n.ref, !left, c);
      AloneChild(z, n, z.ref, !left, c);
      GrandparentChild(z, n, n.ref, !left, c);
      GrandparentChild(z, n, z.ref, !left, c);
    }
  }

  /** Every other node keeps its children, but where the grandparent hung, the top of the rotation hangs. */
  ghost predicate KeepsChild<A>(was: Tree<A>, now: Tree<A>, g: A, top: A, p: A, left: bool, c: Option<A>) {
    && (c != Some(g) && c != Some(top) ==> (HasChild(now, p, left, c) <==> HasChild(was, p, left, c)))
    && (HasChild(now, p, left, Some(top)) <==> HasChild(was, p, left, Some(g)))
  }

  ghost function TopRef<A>(z: Path<A>, m: A): A
    requires Turns(z)
  {
    if IsInner(z) then m else z.ref
  }

  /** The rotation in its place in the tree. */
  lemma TurnedInPlace<A>(z: Path<A>, n: Tree<A>, p: A, left: bool, c: Option<A>)
    requires Turns(z) && n.Node? && Distinct(Plug(z, n))
    ensures Turned(Plug(z, n), Fix(z, n), z, n.ref, p, left, c)
    ensures p !in {n.ref, z.ref, z.up.ref} ==> KeepsChild(Plug(z, n), Fix(z, n), z.up.ref, TopRef(z, n.ref), p, left, c)
  {
    var up, t, r := z.up.up, Grandparent(z, n), Rotate(z, n);
    PlugGrandparent(z, n);
    PlugDistinct(up, t);
    Pieces(z, n);
    TurnedHere(z, n, p, left, c);
    PlugChild(up, t, p, left, c);
    PlugChild(up, r, p, left, c);
    if p in {n.ref, z.ref, z.up.ref} {
      NoPathChild(up, RootOf(t), p);
      NoPathChild(up, RootOf(r), p);
      NoPathChild(up, RootOf(t), n.ref);
      NoPathChild(up, RootOf(t), z.ref);
      PlugChild(up, t, n.ref, !left, c);
      PlugChild(up, t, z.ref, !left, c);
    } else {
      KeptInPlace(z, n, p, left, c);
    }
  }

  lemma KeptInPlace<A>(z: Path<A>, n: Tree<A>, p: A, left: bool, c: Option<A>)
    requires Turns(z) && n.Node? && Distinct(Plug(z, n)) && p !in {n.ref, z.ref, z.up.ref}
    ensures KeepsChild(Plug(z, n), Fix(z, n), z.up.ref, TopRef(z, n.ref), p, left, c)
  {
    var up, t, r := z.up.up, Grandparent(z, n), Rotate(z, n);
    var g, top := z.up.ref, TopRef(z, n.ref);
    PlugGrandparent(z, n);
    PlugDistinct(up, t);
    Pieces(z, n);
    PathRenamed(up, g, top, p, left, c);
    TurnedHere(z, n, p, left, c);
    PlugChild(up, t, p, left, c);
    PlugChild(up, r, p, left, c);
    PlugChild(up, t, p, left, Some(g));
    PlugChild(up, r, p, left, Some(top));
    NotBelow(z, n, p, left);
  }

  /** Below the three nodes nobody has the grandparent or the top for a child. */
  lemma NotBelow<A>(z: Path<A>, n: Tree<A>, p: A, left: bool)
    requires Turns(z) && n.Node? && Distinct(Grandparent(z, n)) && p !in {n.ref, z.ref, z.up.ref}
    ensures !HasChild(Grandparent(z, n), p, left, Some(z.up.ref))
    ensures !HasChild(Rotate(z, n), p, left, Some(TopRef(z, n.ref)))
  {
    var g, top := z.up.ref, TopRef(z, n.ref);
    Pieces(z, n);
    GrandparentChild(z, n, p, left, Some(g));
    RotateChild(z, n, p, left, Some(top));
    forall t, c | t in [n.left, n.right, Sibling(z), Uncle(z)] && c in {g, top} && HasChild(t, p, left, Some(c))
      ensures c in Refs(t)
    {
      ChildIsRef(t, p, left, c);
    }
    var all := [n.left, n.right, Sibling(z), Uncle(z)];
    assert n.left in all && n.right in all && Sibling(z) in all && Uncle(z) in all;
  }

  // ----- the whole fix-up

  lemma RecolourDistinct<A>(z: Path<A>, n: Tree<A>)
    requires Climbs(z) && n.Node? && Distinct(Plug(z, n))
    ensures Distinct(Plug(z.up.up, Recolour(z, n))) && Refs(Plug(z.up.up, Recolour(z, n))) == Refs(Plug(z, n))
  {
    PlugGrandparent(z, n);
    PlugDistinct(z.up.up, Grandparent(z, n));
    GrandparentRefs(z, n);
    PlugOther(z.up.up, Grandparent(z, n), Recolour(z, n));
  }

  lemma RecolourChild<A>(z: Path<A>, n: Tree<A>, p: A, left: bool, c: Option<A>)
    requires Climbs(z) && n.Node?
    ensures HasChild(Plug(z.up.up, Recolour(z, n)), p, left, c) <==> HasChild(Plug(z, n), p, left, c)
  {
    var t, r := Grandparent(z, n), Recolour(z, n);
    PlugGrandparent(z, n);
    PlugChild(z.up.up, t, p, left, c);
    PlugChild(z.up.up, r, p, left, c);
    assert HasChild(Parent(z, n, Black), p, left, c) <==> HasChild(Parent(z, n, z.color), p, left, c);
    assert HasChild(Blacken(Uncle(z)), p, left, c) <==> HasChild(Uncle(z), p, left, c);
  }

  /** Where the climb has ended at `e` with node `m`: without a rotation all links are as before; a rotation changes those of
      three nodes and of the node above them. */
  ghost predicate Relinked<A>(was: Tree<A>, now: Tree<A>, e: Path<A>, m: A, p: A, left: bool, c: Option<A>) {
    if !Turns(e) then HasChild(now, p, left, c) <==> HasChild(was, p, left, c)
    else Turned(was, now, e, m, p, left, c) &&
         (p !in {m, e.ref, e.up.ref} ==> KeepsChild(was, now, e.up.ref, TopRef(e, m), p, left, c))
  }

  lemma LinksThrough<A>(z: Path<A>, n: Tree<A>, now: Tree<A>, p: A, left: bool, c: Option<A>)
    requires Climbs(z) && n.Node?
    requires Relinked(Plug(z.up.up, Recolour(z, n)), now, End(z), EndNode(z, n.ref), p, left, c)
    ensures Relinked(Plug(z, n), now, End(z), EndNode(z, n.ref), p, left, c)
  {
    var e := End(z);
    RecolourChild(z, n, p, left, c);
    if Turns(e) {
      RecolourChild(z, n, EndNode(z, n.ref), !left, c);
      RecolourChild(z, n, e.ref, !left, c);
      RecolourChild(z, n, p, left, Some(e.up.ref));
    }
  }

  /** The climb changes no links; the rotation at its end, if there is one, changes those of three nodes and of the node
      above them. */
  lemma {:induction false} FixChildren<A>(z: Path<A>, n: Tree<A>, p: A, left: bool, c: Option<A>)
    requires n.Node? && Distinct(Plug(z, n))
    ensures Relinked(Plug(z, n), Fix(z, n), End(z), EndNode(z, n.ref), p, left, c)
    decreases z
  {
    if Climbs(z) {
      var r := Recolour(z, n);
      assert Distinct(Plug(z.up.up, r)) by {
        RecolourDistinct(z, n);
      }
      FixChildren(z.up.up, r, p, left, c);
      LinksThrough(z, n, Fix(z, n), p, left, c);
    } else if Turns(z) {
      TurnedInPlace(z, n, p, left, c);
    }
  }

  // ----- insertion

  /** The tree with the new node in its place, before the fix-up. */
  ghost function Hung<A>(t: Tree<A>, key: int, ref: A): Tree<A> {
    Plug(Descend(Top, t, key), NewNode(key, ref))
  }

  lemma {:induction false} HungDistinct<A>(z: Path<A>, key: int, ref: A)
    requires Distinct(Plug(z, Leaf)) && ref !in Refs(Plug(z, Leaf))
    ensures Distinct(Plug(z, NewNode(key, ref))) && Refs(Plug(z, NewNode(key, ref))) == Refs(Plug(z, Leaf)) + {ref}
  {
    PlugMore(z, Leaf, NewNode(key, ref), ref);
  }

  lemma {:induction false} PlugMore<A>(z: Path<A>, t: Tree<A>, t': Tree<A>, ref: A)
    requires Distinct(Plug(z, t)) && Distinct(t') && Refs(t') == Refs(t) + {ref} && ref !in Refs(Plug(z, t))
    ensures Distinct(Plug(z, t')) && Refs(Plug(z, t')) == Refs(Plug(z, t)) + {ref}
    decreases z
  {
    PlugDistinct(z, t);
    PlugRefs(z, t);
    match z
    case Top =>
    case InLeft(up, zc, k, zr, right) =>
      PlugDistinct(up, Node(zc, k, zr, t, right));
      PlugMore(up, Node(zc, k, zr, t, right), Node(zc, k, zr, t', right), ref);
    case InRight(up, zc, k, zr, left) =>
      PlugDistinct(up, Node(zc, k, zr, left, t));
      PlugMore(up, Node(zc, k, zr, left, t), Node(zc, k, zr, left, t'), ref);
  }

  lemma {:induction false} PlugRefs<A>(z: Path<A>, t: Tree<A>)
    ensures Refs(Plug(z, t)) == PathRefs(z) + Refs(t)
    decreases z
  {
    match z
    case Top =>
    case InLeft(up, zc, k, zr, right) => PlugRefs(up, Node(zc, k, zr, t, right));
    case InRight(up, zc, k, zr, left) => PlugRefs(up, Node(zc, k, zr, left, t));
  }

  lemma HungIs<A>(t: Tree<A>, key: int, ref: A, r: A, c: Color)
    requires Distinct(t) && ref !in Refs(t)
    ensures Distinct(Hung(t, key, ref)) && Refs(Hung(t, key, ref)) == Refs(t) + {ref}
    ensures HasColor(Hung(t, key, ref), r, c) <==> HasColor(t, r, c) || (r == ref && c == Red)
  {
    var z := Descend(Top, t, key);
    DescendPlugs(Top, t, key);
    HungDistinct(z, key, ref);
    PlugColor(z, Leaf, r, c);
    PlugColor(z, NewNode(key, ref), r, c);
  }

  lemma BlackenColor<A>(t: Tree<A>, r: A, c: Color)
    requires t.Node? && Distinct(t)
    ensures HasColor(Blacken(t), r, c) <==> if r == t.ref then c == Black else HasColor(t, r, c)
  {
    if r == t.ref {
      NoColor(t.left, r);
      NoColor(t.right, r);
    }
  }

  /** Insertion keeps the nodes, each once, and adds the new one. */
  lemma InsertDistinct<A>(t: Tree<A>, key: int, ref: A)
    requires Distinct(t) && ref !in Refs(t)
    ensures Distinct(Insert(t, key, ref)) && Refs(Insert(t, key, ref)) == Refs(t) + {ref}
  {
    HungIs(t, key, ref, ref, Red);
    FixDistinct(Descend(Top, t, key), NewNode(key, ref));
  }

  /** The colour of every node after an insertion: the root is black, the grandparents on the way of the fix-up are red, the
      parents and uncles black, the new node red and every other node as it was. */
  lemma InsertColors<A>(t: Tree<A>, key: int, ref: A, r: A, c: Color)
    requires Distinct(t) && ref !in Refs(t)
    ensures var z, now := Descend(Top, t, key), Insert(t, key, ref);
            HasColor(now, r, c) <==>
            if RootOf(now) == Some(r) then c == Black
            else if r in Reddened(z) then c == Red
            else if r in Blackened(z) then c == Black
            else if r == ref then c == Red
            else HasColor(t, r, c)
  {
    var z, n := Descend(Top, t, key), NewNode(key, ref);
    HungIs(t, key, ref, r, c);
    FixDistinct(z, n);
    FixColors(z, n, r, c);
    BlackenColor(Fix(z, n), r, c);
    if r == ref { NoColor(t, ref); }
  }

  /** Every link after an insertion, told by the links with the new node hung in its place. */
  lemma InsertChildren<A>(t: Tree<A>, key: int, ref: A, p: A, left: bool, c: Option<A>)
    requires Distinct(t) && ref !in Refs(t)
    ensures var z := Descend(Top, t, key);
            Relinked(Hung(t, key, ref), Insert(t, key, ref), End(z), EndNode(z, ref), p, left, c)
  {
    var z, n := Descend(Top, t, key), NewNode(key, ref);
    HungIs(t, key, ref, ref, Red);
    FixChildren(z, n, p, left, c);
    var f := Fix(z, n);
    forall q, side, d
      ensures HasChild(Blacken(f), q, side, d) <==> HasChild(f, q, side, d)
    {
    }
  }

  /** Where the climb ends in a rotation, the parent there turns black and the grandparent red; the node there is the new
      one or a grandparent that has turned red. */
  lemma {:induction false} EndPainted<A>(z: Path<A>, n: Tree<A>)
    requires n.Node? && Distinct(Plug(z, n)) && Turns(End(z))
    ensures var e, m := End(z), EndNode(z, n.ref);
            && e.ref in Blackened(z) && e.ref !in Reddened(z) && e.up.ref in Reddened(z)
            && (m == n.ref || m in Reddened(z)) && n.ref !in Reddened(z) && n.ref !in Blackened(z)
            && e.ref in PathRefs(z) && e.up.ref in PathRefs(z) && e.ref != e.up.ref && m != e.ref && m != e.up.ref
    decreases z
  {
    PlugDistinct(z, n);
    RepaintedOnPath(z);
    PlugGrandparent(z, n);
    PlugDistinct(z.up.up, Grandparent(z, n));
    Pieces(z, n);
    if Climbs(z) {
      RecolourDistinct(z, n);
      EndPainted(z.up.up, Recolour(z, n));
    }
  }

  lemma RootIsNoChild<A>(t: Tree<A>, p: A, left: bool)
    requires t.Node? && Distinct(t)
    ensures !HasChild(t, p, left, Some(t.ref))
  {
    if HasChild(t, p, left, Some(t.ref)) {
      assert RootOf(t.left) != Some(t.ref) && RootOf(t.right) != Some(t.ref);
      if HasChild(t.left, p, left, Some(t.ref)) {
        ChildIsRef(t.left, p, left, t.ref);
      } else {
        ChildIsRef(t.right, p, left, t.ref);
      }
    }
  }

  /** An insertion that ends in the inner-child case leaves the node there on top, red unless it is the root now, between
      its old parent, black, and its old grandparent, red. */
  lemma InnerCaseLeaves<A>(t: Tree<A>, key: int, ref: A)
    requires Distinct(t) && ref !in Refs(t) && EntersInner(Descend(Top, t, key))
    ensures var z := Descend(Top, t, key);
            var now, e, m := Insert(t, key, ref), End(z), EndNode(z, ref);
            && Turns(e) && IsInner(e)
            && HasColor(now, m, if RootOf(now) == Some(m) then Black else Red)
            && HasColor(now, e.ref, Black) && HasColor(now, e.up.ref, Red)
            && HasChild(now, m, e.up.InLeft?, Some(e.ref)) && HasChild(now, m, e.up.InRight?, Some(e.up.ref))
  {
    var z, n := Descend(Top, t, key), NewNode(key, ref);
    var e, m := End(z), EndNode(z, ref);
    HungIs(t, key, ref, ref, Red);
    EntersInnerEnd(z);
    EndPainted(z, n);
    InsertDistinct(t, key, ref);
    InsertColors(t, key, ref, m, Red);
    InsertColors(t, key, ref, m, Black);
    InsertColors(t, key, ref, e.ref, Black);
    InsertColors(t, key, ref, e.up.ref, Red);
    InsertChildren(t, key, ref, m, e.up.InLeft?, Some(e.ref));
    InsertChildren(t, key, ref, m, e.up.InRight?, Some(e.up.ref));
    RootIsNoChild(Insert(t, key, ref), m, e.up.InRight?);
  }

  lemma {:induction false} EntersInnerEnd<A>(z: Path<A>)
    ensures EntersInner(z) <==> Turns(End(z)) && IsInner(End(z))
    decreases z
  {
    if Climbs(z) {
      EntersInnerEnd(z.up.up);
    }
  }

  /** A run with a new node for each key keeps exactly those nodes, each once. */
  lemma {:induction false} BuildDistinct<A>(keys: seq<int>, refs: seq<A>)
    requires |refs| == |keys| && forall i, j :: 0 <= i < j < |refs| ==> refs[i] != refs[j]
    ensures Distinct(Build(keys, refs)) && forall r :: r in Refs(Build(keys, refs)) <==> r in refs
    decreases keys
  {
    if keys != [] {
      var n := |keys| - 1;
      BuildDistinct(keys[..n], refs[..n]);
      assert refs[n] !in refs[..n];
      InsertDistinct(Build(keys[..n], refs[..n]), keys[n], refs[n]);
      assert refs == refs[..n] + [refs[n]];
    }
  }

  /** Two rotations where the climb ends in the inner case, one in the outer case, none otherwise. */
  lemma {:induction false} RotationsTold<A>(z: Path<A>)
    ensures Rotations(z) == if !Turns(End(z)) then 0 else if IsInner(End(z)) then 2 else 1
    decreases z
  {
    if Climbs(z) {
      RotationsTold(z.up.up);
    }
  }
}

/** Whole sequences of insertions into an empty tree; `refs[i]` is the node made for `keys[i]`. */
module RedBlackRuns {
  import opened RedBlackModel
  import opened RedBlackOrder
  import opened RedBlackRules

  function Build<A>(keys: seq<int>, refs: seq<A>): Tree<A>
    requires |refs| == |keys|
  {
    if keys == [] then Leaf
    else
      var n := |keys| - 1;
      Insert(Build(keys[..n], refs[..n]), keys[n], refs[n])
  }

  function TotalRotations<A>(keys: seq<int>, refs: seq<A>): nat
    requires |refs| == |keys|
  {
    if keys == [] then 0
    else
      var n := |keys| - 1;
      TotalRotations(keys[..n], refs[..n]) + Rotations(Descend(Top, Build(keys[..n], refs[..n]), keys[n]))
  }

  /** Reference: insertion sort that puts a new entry behind its equals. */
  function InsertEntry<A>(s: Entries<A>, x: (int, A)): Entries<A> {
    if s == [] || s[0].0 > x.0 then [x] + s else [s[0]] + InsertEntry(s[1..], x)
  }

  function StableSort<A>(keys: seq<int>, refs: seq<A>): Entries<A>
    requires |refs| == |keys|
  {
    if keys == [] then []
    else
      var n := |keys| - 1;
      InsertEntry(StableSort(keys[..n], refs[..n]), (keys[n], refs[n]))
  }

  lemma {:induction false} InsertEntryAt<A>(s: Entries<A>, x: (int, A), i: nat)
    requires i <= |s| && AllAtMost(s[..i], x.0) && AllAbove(s[i..], x.0)
    ensures InsertEntry(s, x) == s[..i] + [x] + s[i..]
  {
    if i == 0 {
      assert s != [] ==> s[0] == s[0..][0];
      assert s[..0] + [x] + s[0..] == [x] + s;
    } else {
      assert s[0] == s[..i][0];
      var t := s[1..];
      assert t[..i - 1] == s[..i][1..] && t[i - 1..] == s[i..];
      InsertEntryAt(t, x, i - 1);
      assert s[..i] == [s[0]] + t[..i - 1];
      HoleRight([s[0]], t[..i - 1], [x], s[i..], []);
      assert [s[0]] + (t[..i - 1] + [x] + s[i..]) == [s[0]] + t[..i - 1] + [x] + s[i..];
    }
  }

  /** In every run, inner-child cases included, the tree lists the stable sort of the keys. */
  lemma {:induction false} BuildIsStableSort<A>(keys: seq<int>, refs: seq<A>)
    requires |refs| == |keys|
    ensures Inorder(Build(keys, refs)) == StableSort(keys, refs)
    ensures Sorted(StableSort(keys, refs))
    decreases keys
  {
    if keys != [] {
      var n := |keys| - 1;
      BuildIsStableSort(keys[..n], refs[..n]);
      var t := Build(keys[..n], refs[..n]);
      var i := InsertIsStable(t, keys[n], refs[n]);
      InsertEntryAt(Inorder(t), (keys[n], refs[n]), i);
    }
  }

  /** Every run rotates at most twice per insertion and ends with a black root. */
  lemma {:induction false} RotationsBounded<A>(keys: seq<int>, refs: seq<A>)
    requires |refs| == |keys|
    ensures TotalRotations(keys, refs) <= 2 * |keys|
    ensures !IsRed(Build(keys, refs))
    decreases keys
  {
    if keys != [] {
      RotationsBounded(keys[..|keys| - 1], refs[..|keys| - 1]);
    }
  }

  // ----- keys arriving in order

  predicate AllInRight<A>(z: Path<A>) {
    z.InLeft? || z.InRight? ==> z.InRight? && AllInRight(z.up)
  }

  lemma {:induction false} RightSpineIsOuter<A>(z: Path<A>)
    requires AllInRight(z)
    ensures !EntersInner(z)
    decreases z
  {
    if ParentRed(z) && !z.up.Top? {
      RightSpineIsOuter(z.up.up);
    }
  }

  lemma {:induction false} DescendRight<A>(z: Path<A>, t: Tree<A>, key: int)
    requires AllInRight(z) && AllAtMost(Inorder(t), key)
    ensures AllInRight(Descend(z, t, key))
    decreases t
  {
    match t
    case Leaf =>
    case Node(c, k, r, left, right) =>
      var s := Inorder(t);
      var l := |Inorder(left)|;
      assert s[l] == (k, r);
      assert s[l + 1..] == Inorder(right);
      DescendRight(InRight(z, c, k, r, left), right, key);
  }

  lemma {:induction false} StableSortAtMost<A>(keys: seq<int>, refs: seq<A>, bound: int)
    requires |refs| == |keys| && forall i :: 0 <= i < |keys| ==> keys[i] <= bound
    ensures AllAtMost(StableSort(keys, refs), bound)
    decreases keys
  {
    if keys != [] {
      var n := |keys| - 1;
      StableSortAtMost(keys[..n], refs[..n], bound);
      InsertEntryAtMost(StableSort(keys[..n], refs[..n]), (keys[n], refs[n]), bound);
    }
  }

  lemma {:induction false} InsertEntryAtMost<A>(s: Entries<A>, x: (int, A), bound: int)
    requires AllAtMost(s, bound) && x.0 <= bound
    ensures AllAtMost(InsertEntry(s, x), bound)
  {
    if !(s == [] || s[0].0 > x.0) {
      InsertEntryAtMost(s[1..], x, bound);
    }
  }

  /** Keys that arrive in nondecreasing order never meet the inner-child case. */
  lemma {:induction false} NondecreasingKeepsRules<A>(keys: seq<int>, refs: seq<A>)
    requires |refs| == |keys| && forall i, j :: 0 <= i < j < |keys| ==> keys[i] <= keys[j]
    ensures Rules(Build(keys, refs))
    decreases keys
  {
    if keys == [] {
      assert BlackHeight(Build(keys, refs), 0);
    } else {
      var n := |keys| - 1;
      NondecreasingKeepsRules(keys[..n], refs[..n]);
      BuildIsStableSort(keys[..n], refs[..n]);
      StableSortAtMost(keys[..n], refs[..n], keys[n]);
      var t := Build(keys[..n], refs[..n]);
      DescendRight(Top, t, keys[n]);
      RightSpineIsOuter(Descend(Top, t, keys[n]));
      InsertKeepsRulesIff(t, keys[n], refs[n]);
    }
  }

  // ----- height

  function Height<A>(t: Tree<A>): nat {
    if t.Leaf? then 0
    else if Height(t.left) > Height(t.right) then 1 + Height(t.left)
    else 1 + Height(t.right)
  }

  function Size<A>(t: Tree<A>): nat {
    if t.Leaf? then 0 else 1 + Size(t.left) + Size(t.right)
  }

  function Pow2(n: nat): (p: nat)
    ensures p >= 1
  {
    if n == 0 then 1 else 2 * Pow2(n - 1)
  }

  lemma {:induction false} Pow2Sum(a: nat, b: nat)
    ensures Pow2(a + b) == Pow2(a) * Pow2(b)
  {
    if a > 0 {
      Pow2Sum(a - 1, b);
    }
  }

  lemma {:induction false} Pow2Mono(a: nat, b: nat)
    requires a <= b
    ensures Pow2(a) <= Pow2(b)
  {
    if a < b {
      Pow2Mono(a, b - 1);
    }
  }

  lemma {:induction false} RulesBoundHeight<A>(t: Tree<A>, h: nat)
    requires NoRedRed(t) && BlackHeight(t, h)
    ensures Height(t) <= 2 * h + (if IsRed(t) then 1 else 0)
    ensures Pow2(h) <= Size(t) + 1
  {
    if t.Node? {
      var h' := if t.color.Red? then h else h - 1;
      RulesBoundHeight(t.left, h');
      RulesBoundHeight(t.right, h');
    }
  }

  lemma SquareMono(a: nat, b: nat)
    requires a <= b
    ensures a * a <= b * b
  {
  }

  /** Under the rules the height is at most twice the binary logarithm of the size plus one. */
  lemma HeightIsLogarithmic<A>(t: Tree<A>)
    requires Rules(t)
    ensures Pow2(Height(t)) <= (Size(t) + 1) * (Size(t) + 1)
  {
    var h: nat :| BlackHeight(t, h);
    RulesBoundHeight(t, h);
    Pow2Mono(Height(t), 2 * h);
    Pow2Sum(h, h);
    SquareMono(Pow2(h), Size(t) + 1);
  }

  lemma {:induction false} SizeIsLength<A>(t: Tree<A>)
    ensures Size(t) == |Inorder(t)|
  {
    if t.Node? {
      SizeIsLength(t.left);
      SizeIsLength(t.right);
    }
  }

  lemma {:induction false} StableSortLength<A>(keys: seq<int>, refs: seq<A>)
    requires |refs| == |keys|
    ensures |StableSort(keys, refs)| == |keys|
    decreases keys
  {
    if keys != [] {
      var n := |keys| - 1;
      StableSortLength(keys[..n], refs[..n]);
      InsertEntryLength(StableSort(keys[..n], refs[..n]), (keys[n], refs[n]));
    }
  }

  lemma {:induction false} InsertEntryLength<A>(s: Entries<A>, x: (int, A))
    ensures |InsertEntry(s, x)| == |s| + 1
  {
    if !(s == [] || s[0].0 > x.0) {
      InsertEntryLength(s[1..], x);
    }
  }

  /** Any nondecreasing sequence of any length builds a tree of logarithmic height. */
  lemma NondecreasingHeight<A>(keys: seq<int>, refs: seq<A>)
    requires |refs| == |keys| && forall i, j :: 0 <= i < j < |keys| ==> keys[i] <= keys[j]
    ensures Pow2(Height(Build(keys, refs))) <= (|keys| + 1) * (|keys| + 1)
  {
    NondecreasingKeepsRules(keys, refs);
    HeightIsLogarithmic(Build(keys, refs));
    SizeIsLength(Build(keys, refs));
    BuildIsStableSort(keys, refs);
    StableSortLength(keys, refs);
  }

  // ----- the rules along a run

  function TreeAt<A>(keys: seq<int>, refs: seq<A>, i: nat): Tree<A>
    requires |refs| == |keys| && i <= |keys|
  {
    Build(keys[..i], refs[..i])
  }

  /** Whether insertion number `i` of a run ends in the inner-child case. */
  predicate InnerAt<A>(keys: seq<int>, refs: seq<A>, i: nat)
    requires |refs| == |keys| && i < |keys|
  {
    EntersInner(Descend(Top, TreeAt(keys, refs, i), keys[i]))
  }

  lemma TreeStep<A>(keys: seq<int>, refs: seq<A>, i: nat)
    requires |refs| == |keys| && i < |keys|
    ensures TreeAt(keys, refs, i + 1) == Insert(TreeAt(keys, refs, i), keys[i], refs[i])
    ensures Rules(TreeAt(keys, refs, i)) ==> (Rules(TreeAt(keys, refs, i + 1)) <==> !InnerAt(keys, refs, i))
  {
    assert keys[..i + 1][..i] == keys[..i] && refs[..i + 1][..i] == refs[..i];
    if Rules(TreeAt(keys, refs, i)) {
      InsertKeepsRulesIff(TreeAt(keys, refs, i), keys[i], refs[i]);
    }
  }

  lemma {:induction false} OuterRunKeepsRules<A>(keys: seq<int>, refs: seq<A>, i: nat)
    requires |refs| == |keys| && i <= |keys| && forall j :: 0 <= j < i ==> !InnerAt(keys, refs, j)
    ensures Rules(TreeAt(keys, refs, i))
  {
    if i == 0 {
      assert BlackHeight(TreeAt(keys, refs, 0), 0);
    } else {
      OuterRunKeepsRules(keys, refs, i - 1);
      TreeStep(keys, refs, i - 1);
    }
  }

  /** Along a run of insertions every tree obeys the rules if and only if no insertion of the run enters the inner-child
      case. */
  lemma RunKeepsRulesIff<A>(keys: seq<int>, refs: seq<A>)
    requires |refs| == |keys|
    ensures (forall i :: 0 <= i <= |keys| ==> Rules(TreeAt(keys, refs, i))) <==>
            (forall i :: 0 <= i < |keys| ==> !InnerAt(keys, refs, i))
  {
    if forall i :: 0 <= i < |keys| ==> !InnerAt(keys, refs, i) {
      forall i | 0 <= i <= |keys|
        ensures Rules(TreeAt(keys, refs, i))
      {
        OuterRunKeepsRules(keys, refs, i);
      }
    }
    if forall i :: 0 <= i <= |keys| ==> Rules(TreeAt(keys, refs, i)) {
      forall i | 0 <= i < |keys|
        ensures !InnerAt(keys, refs, i)
      {
        TreeStep(keys, refs, i);
        assert Rules(TreeAt(keys, refs, i)) && Rules(TreeAt(keys, refs, i + 1));
      }
    }
  }
}

/** The AVL index of holes as a value: its shape, order, balance and rotations.
    The tree remembers, as `ptr`, which node of the pool sits where. */
module HoleTree {
  import opened Alignment


  datatype Hole = Hole(size: nat, addr: nat)

  /** The order of the index: by size, and by address among equal sizes. */
  predicate Less(a: Hole, b: Hole) {
    a.size < b.size || (a.size == b.size && a.addr < b.addr)
  }

  /** `height` is the field stored in the node, not the computed height. */
  datatype Tree = Leaf | Bin(ptr: int, left: Tree, hole: Hole, height: int, right: Tree)

  function Max(a: int, b: int): int { if a > b then a else b }

  function StoredHeight(t: Tree): int {
    if t.Leaf? then 0 else t.height
  }

  ghost function Height(t: Tree): nat {
    if t.Leaf? then 0 else 1 + Max(Height(t.left), Height(t.right))
  }

  ghost function Holes(t: Tree): set<Hole> {
    if t.Leaf? then {} else Holes(t.left) + {t.hole} + Holes(t.right)
  }

  ghost function Nodes(t: Tree): set<int> {
    if t.Leaf? then {} else {t.ptr} + Nodes(t.left) + Nodes(t.right)
  }

  /** No node occurs twice. */
  ghost predicate Separate(t: Tree) {
    t.Bin? ==>
      && t.ptr !in Nodes(t.left) && t.ptr !in Nodes(t.right)
      && Nodes(t.left) !! Nodes(t.right)
      && Separate(t.left) && Separate(t.right)
  }

  ghost predicate Ordered(t: Tree) {
    t.Bin? ==>
      && (forall h :: h in Holes(t.left) ==> Less(h, t.hole))
      && (forall h :: h in Holes(t.right) ==> Less(t.hole, h))
      && Ordered(t.left) && Ordered(t.right)
  }

  ghost function Lean(t: Tree): int {
    if t.Leaf? then 0 else Height(t.right) - Height(t.left)
  }

  /** Balance within one everywhere, and every stored height is the true height. */
  ghost predicate Balanced(t: Tree) {
    t.Bin? ==>
      && t.height == Height(t)
      && -1 <= Lean(t) <= 1
      && Balanced(t.left) && Balanced(t.right)
  }

  ghost predicate Sound(t: Tree) {
    Separate(t) && Ordered(t) && Balanced(t)
  }

  /** A node over two subtrees whose stored height has just been recomputed. */
  function Join(p: int, l: Tree, h: Hole, r: Tree): Tree {
    Bin(p, l, h, Max(StoredHeight(r), StoredHeight(l)) + 1, r)
  }

  function RotateLeft(t: Tree): Tree
    requires t.Bin? && t.right.Bin?
  {
    var pivot := t.right;
    Join(pivot.ptr, Join(t.ptr, t.left, t.hole, pivot.left), pivot.hole, pivot.right)
  }

  function RotateRight(t: Tree): Tree
    requires t.Bin? && t.left.Bin?
  {
    var pivot := t.left;
    Join(pivot.ptr, pivot.left, pivot.hole, Join(t.ptr, pivot.right, t.hole, t.right))
  }

  function DoubleRotateLeft(t: Tree): Tree
    requires t.Bin? && t.right.Bin? && t.right.left.Bin?
  {
    var middle, bottom := t.right, t.right.left;
    Join(bottom.ptr,
         Join(t.ptr, t.left, t.hole, bottom.left),
         bottom.hole,
         Join(middle.ptr, bottom.right, middle.hole, middle.right))
  }

  function DoubleRotateRight(t: Tree): Tree
    requires t.Bin? && t.left.Bin? && t.left.right.Bin?
  {
    var middle, bottom := t.left, t.left.right;
    Join(bottom.ptr,
         Join(middle.ptr, middle.left, middle.hole, bottom.left),
         bottom.hole,
         Join(t.ptr, bottom.right, t.hole, t.right))
  }

  /** The repair of a node leaning two to the right: one or two rotations. */
  function RaiseRight(t: Tree): Tree
    requires t.Bin? && t.right.Bin?
    requires StoredHeight(t.right.right) - StoredHeight(t.right.left) == -1 ==> t.right.left.Bin?
  {
    if StoredHeight(t.right.right) - StoredHeight(t.right.left) == -1
    then DoubleRotateLeft(t) else RotateLeft(t)
  }

  /** The repair of a node leaning two to the left. */
  function RaiseLeft(t: Tree): Tree
    requires t.Bin? && t.left.Bin?
    requires StoredHeight(t.left.right) - StoredHeight(t.left.left) == 1 ==> t.left.right.Bin?
  {
    if StoredHeight(t.left.right) - StoredHeight(t.left.left) == 1
    then DoubleRotateRight(t) else RotateRight(t)
  }

  lemma StoredIsTrue(t: Tree)
    requires Balanced(t)
    ensures StoredHeight(t) == Height(t)
    ensures Height(t) == 0 <==> t.Leaf?
  {}

  /** What every rotation must keep: the holes, their order, the nodes. */
  ghost predicate SameContent(t: Tree, u: Tree) {
    && Holes(u) == Holes(t)
    && Nodes(u) == Nodes(t)
    && (Ordered(t) ==> Ordered(u))
    && (Separate(t) ==> Separate(u))
  }

  lemma RotateLeftContent(t: Tree)
    requires t.Bin? && t.right.Bin?
    ensures SameContent(t, RotateLeft(t))
  {
    var lower := RotateLeft(t).left;
    assert Holes(t.right) == Holes(t.right.left) + {t.right.hole} + Holes(t.right.right);
    assert Holes(lower) == Holes(t.left) + {t.hole} + Holes(t.right.left);
    assert Nodes(t.right) == {t.right.ptr} + Nodes(t.right.left) + Nodes(t.right.right);
    assert Nodes(lower) == {t.ptr} + Nodes(t.left) + Nodes(t.right.left);
    if Ordered(t) {
      assert Ordered(t.right) && t.right.hole in Holes(t.right);
      assert Ordered(lower);
      assert forall h :: h in Holes(lower) ==> Less(h, t.right.hole);
    }
    assert Separate(t) ==> Separate(t.right) && Separate(lower);
  }

  lemma RotateRightContent(t: Tree)
    requires t.Bin? && t.left.Bin?
    ensures SameContent(t, RotateRight(t))
  {
    var lower := RotateRight(t).right;
    assert Holes(t.left) == Holes(t.left.left) + {t.left.hole} + Holes(t.left.right);
    assert Holes(lower) == Holes(t.left.right) + {t.hole} + Holes(t.right);
    assert Nodes(t.left) == {t.left.ptr} + Nodes(t.left.left) + Nodes(t.left.right);
    assert Nodes(lower) == {t.ptr} + Nodes(t.left.right) + Nodes(t.right);
    if Ordered(t) {
      assert Ordered(t.left) && t.left.hole in Holes(t.left);
      assert Ordered(lower);
      assert forall h :: h in Holes(lower) ==> Less(t.left.hole, h);
    }
    assert Separate(t) ==> Separate(t.left) && Separate(lower);
  }

  lemma DoubleRotateLeftContent(t: Tree)
    requires t.Bin? && t.right.Bin? && t.right.left.Bin?
    ensures SameContent(t, DoubleRotateLeft(t))
  {
    var lower := t.(right := RotateRight(t.right));
    RotateRightContent(t.right);
    RotateLeftContent(lower);
  }

  lemma DoubleRotateRightContent(t: Tree)
    requires t.Bin? && t.left.Bin? && t.left.right.Bin?
    ensures SameContent(t, DoubleRotateRight(t))
  {
    var lower := t.(left := RotateLeft(t.left));
    RotateLeftContent(t.left);
    RotateRightContent(lower);
  }

  lemma RotateLeftBalances(t: Tree)
    requires t.Bin? && Balanced(t.left) && Balanced(t.right) && Lean(t) == 2 && Lean(t.right) >= 0
    ensures t.right.Bin?
    ensures var u := RotateLeft(t);
            && Balanced(u)
            && Height(u) == Height(t.right) + (if Lean(t.right) == 0 then 1 else 0)
            && (Lean(u) == -1 <==> Lean(t.right) == 0)
  {
    StoredIsTrue(t.left);
    StoredIsTrue(t.right.left);
    StoredIsTrue(t.right.right);
    assert Balanced(RotateLeft(t).left);
  }

  lemma RotateRightBalances(t: Tree)
    requires t.Bin? && Balanced(t.left) && Balanced(t.right) && Lean(t) == -2 && Lean(t.left) <= 0
    ensures t.left.Bin?
    ensures var u := RotateRight(t);
            && Balanced(u)
            && Height(u) == Height(t.left) + (if Lean(t.left) == 0 then 1 else 0)
            && (Lean(u) == 1 <==> Lean(t.left) == 0)
  {
    StoredIsTrue(t.right);
    StoredIsTrue(t.left.left);
    StoredIsTrue(t.left.right);
    assert Balanced(RotateRight(t).right);
  }

  lemma DoubleRotateLeftBalances(t: Tree)
    requires t.Bin? && Balanced(t.left) && Balanced(t.right) && Lean(t) == 2 && Lean(t.right) == -1
    ensures t.right.Bin? && t.right.left.Bin?
    ensures var u := DoubleRotateLeft(t);
            Balanced(u) && Height(u) == Height(t.right) && Lean(u) == 0
  {
    var q := t.right.left;
    StoredIsTrue(t.left);
    StoredIsTrue(t.right.right);
    StoredIsTrue(q.left);
    StoredIsTrue(q.right);
    var u := DoubleRotateLeft(t);
    assert Balanced(u.left) && Height(u.left) == Height(t.left) + 1;
    assert Balanced(u.right) && Height(u.right) == Height(t.left) + 1;
  }

  lemma DoubleRotateRightBalances(t: Tree)
    requires t.Bin? && Balanced(t.left) && Balanced(t.right) && Lean(t) == -2 && Lean(t.left) == 1
    ensures t.left.Bin? && t.left.right.Bin?
    ensures var u := DoubleRotateRight(t);
            Balanced(u) && Height(u) == Height(t.left) && Lean(u) == 0
  {
    var q := t.left.right;
    StoredIsTrue(t.right);
    StoredIsTrue(t.left.left);
    StoredIsTrue(q.left);
    StoredIsTrue(q.right);
    var u := DoubleRotateRight(t);
    assert Balanced(u.left) && Height(u.left) == Height(t.right) + 1;
    assert Balanced(u.right) && Height(u.right) == Height(t.right) + 1;
  }

  /** What the code reads off the right child of a node leaning two to the right. */
  lemma RightChildLean(t: Tree)
    requires t.Bin? && Balanced(t.right) && Lean(t) == 2
    ensures t.right.Bin?
    ensures StoredHeight(t.right.right) - StoredHeight(t.right.left) == Lean(t.right)
    ensures Lean(t.right) == -1 ==> t.right.left.Bin?
  {
    StoredIsTrue(t.right.left);
    StoredIsTrue(t.right.right);
  }

  lemma LeftChildLean(t: Tree)
    requires t.Bin? && Balanced(t.left) && Lean(t) == -2
    ensures t.left.Bin?
    ensures StoredHeight(t.left.right) - StoredHeight(t.left.left) == Lean(t.left)
    ensures Lean(t.left) == 1 ==> t.left.right.Bin?
  {
    StoredIsTrue(t.left.left);
    StoredIsTrue(t.left.right);
  }

  /** Repairing a node that leans two to the right yields a balanced tree with the same content;
      its height is the right subtree's, plus one exactly when that subtree was even. */
  lemma RaiseRightRepairs(t: Tree)
    requires t.Bin? && Balanced(t.left) && Balanced(t.right) && Lean(t) == 2
    ensures t.right.Bin? && (StoredHeight(t.right.right) - StoredHeight(t.right.left) == -1 ==> t.right.left.Bin?)
    ensures var u := RaiseRight(t);
            && u.Bin? && SameContent(t, u) && Balanced(u)
            && Height(u) == Height(t.right) + (if Lean(t.right) == 0 then 1 else 0)
            && (Lean(u) == -1 <==> Lean(t.right) == 0)
  {
    RightChildLean(t);
    if Lean(t.right) == -1 {
      DoubleRotateLeftContent(t);
      DoubleRotateLeftBalances(t);
    } else {
      RotateLeftContent(t);
      RotateLeftBalances(t);
    }
  }

  lemma RaiseLeftRepairs(t: Tree)
    requires t.Bin? && Balanced(t.left) && Balanced(t.right) && Lean(t) == -2
    ensures t.left.Bin? && (StoredHeight(t.left.right) - StoredHeight(t.left.left) == 1 ==> t.left.right.Bin?)
    ensures var u := RaiseLeft(t);
            && u.Bin? && SameContent(t, u) && Balanced(u)
            && Height(u) == Height(t.left) + (if Lean(t.left) == 0 then 1 else 0)
            && (Lean(u) == 1 <==> Lean(t.left) == 0)
  {
    LeftChildLean(t);
    if Lean(t.left) == 1 {
      DoubleRotateRightContent(t);
      DoubleRotateRightBalances(t);
    } else {
      RotateRightContent(t);
      RotateRightBalances(t);
    }
  }

  /** `t'` is `t` with `hole` added in node `p`; `grew` tells whether the tree became higher. */
  ghost predicate Inserted(t: Tree, hole: Hole, p: int, t': Tree, grew: bool) {
    && t'.Bin? && Sound(t')
    && Holes(t') == Holes(t) + {hole}
    && Nodes(t') == Nodes(t) + {p}
    && Height(t') == Height(t) + (if grew then 1 else 0)
    && (grew ==> Lean(t') != 0 || Height(t') == 1)
  }

  lemma InsertedRight(t: Tree, hole: Hole, p: int, r: Tree, grew: bool)
    requires t.Bin? && Sound(t) && Less(t.hole, hole) && p !in Nodes(t)
    requires Inserted(t.right, hole, p, r, grew)
    ensures var u := t.(right := r);
            && Separate(u) && Ordered(u)
            && Holes(u) == Holes(t) + {hole} && Nodes(u) == Nodes(t) + {p}
            && Lean(u) == Lean(t) + (if grew then 1 else 0)
  {}

  /** An insertion is complete once the tree with the new hole is rebalanced. */
  lemma InsertedAndRepaired(t: Tree, hole: Hole, p: int, u: Tree, t': Tree, grew: bool)
    requires Separate(u) && Ordered(u) && Holes(u) == Holes(t) + {hole} && Nodes(u) == Nodes(t) + {p}
    requires t'.Bin? && SameContent(u, t') && Balanced(t')
    requires Height(t') == Height(t) + (if grew then 1 else 0) && (grew ==> Lean(t') != 0)
    ensures Inserted(t, hole, p, t', grew)
  {}

  lemma InsertedLeft(t: Tree, hole: Hole, p: int, l: Tree, grew: bool)
    requires t.Bin? && Sound(t) && Less(hole, t.hole) && p !in Nodes(t)
    requires Inserted(t.left, hole, p, l, grew)
    ensures var u := t.(left := l);
            && Separate(u) && Ordered(u)
            && Holes(u) == Holes(t) + {hole} && Nodes(u) == Nodes(t) + {p}
            && Lean(u) == Lean(t) - (if grew then 1 else 0)
  {}

  ghost function LastHole(t: Tree): Hole
    requires t.Bin?
  {
    if t.right.Leaf? then t.hole else LastHole(t.right)
  }

  lemma {:induction false} LastHoleIsGreatest(t: Tree)
    requires t.Bin? && Ordered(t)
    ensures LastHole(t) in Holes(t)
    ensures forall h :: h in Holes(t) ==> h == LastHole(t) || Less(h, LastHole(t))
    decreases t
  {
    if t.right.Bin? {
      LastHoleIsGreatest(t.right);
    }
  }

  /** `t'` is `t` with `hole` taken out and the node `freed` released; `shrank` tells whether it became lower. */
  ghost predicate Removed(t: Tree, hole: Hole, freed: int, t': Tree, shrank: bool) {
    && Sound(t')
    && Holes(t') == Holes(t) - {hole}
    && freed in Nodes(t) && Nodes(t') == Nodes(t) - {freed}
    && Height(t') == Height(t) - (if shrank then 1 else 0)
  }

  /** The root may already carry the hole that is about to be removed from the left subtree. */
  ghost predicate ReadyToLoseLeft(t: Tree, hole: Hole) {
    && t.Bin? && Separate(t) && Balanced(t) && Ordered(t.left) && Ordered(t.right)
    && hole in Holes(t.left)
    && (forall h :: h in Holes(t.left) && h != hole ==> Less(h, t.hole))
    && (forall h :: h in Holes(t.right) ==> Less(t.hole, h))
  }

  lemma RemovedLeft(t: Tree, hole: Hole, freed: int, l: Tree, shrank: bool)
    requires ReadyToLoseLeft(t, hole) && Removed(t.left, hole, freed, l, shrank)
    ensures var u := t.(left := l);
            && Separate(u) && Ordered(u)
            && Holes(u) == Holes(t.left) - {hole} + {t.hole} + Holes(t.right)
            && Nodes(u) == Nodes(t) - {freed} && freed in Nodes(t)
            && Lean(u) == Lean(t) + (if shrank then 1 else 0)
            && Height(u) == Height(t) - (if shrank && Lean(u) == 0 then 1 else 0)
  {}

  lemma RemovedRight(t: Tree, hole: Hole, freed: int, r: Tree, shrank: bool)
    requires t.Bin? && Sound(t) && Less(t.hole, hole) && Removed(t.right, hole, freed, r, shrank)
    ensures var u := t.(right := r);
            && Separate(u) && Ordered(u)
            && Holes(u) == Holes(t) - {hole}
            && Nodes(u) == Nodes(t) - {freed} && freed in Nodes(t)
            && Lean(u) == Lean(t) - (if shrank then 1 else 0)
            && Height(u) == Height(t) - (if shrank && Lean(u) == 0 then 1 else 0)
  {
    assert forall h :: h in Holes(t.left) ==> h != hole;
  }

  /** With one child missing, balance leaves the other at most a single node. */
  lemma OnlyChildIsLeaf(t: Tree)
    requires t.Bin? && Balanced(t)
    ensures t.left.Leaf? && t.right.Bin? ==> t.right.left.Leaf? && t.right.right.Leaf? && t.height == 2
    ensures t.right.Leaf? && t.left.Bin? ==> t.left.left.Leaf? && t.left.right.Leaf? && t.height == 2
    ensures t.left.Leaf? && t.right.Leaf? ==> t.height == 1
  {
    StoredIsTrue(t.left);
    StoredIsTrue(t.right);
    if t.left.Leaf? && t.right.Bin? {
      StoredIsTrue(t.right.left);
      StoredIsTrue(t.right.right);
    }
    if t.right.Leaf? && t.left.Bin? {
      StoredIsTrue(t.left.left);
      StoredIsTrue(t.left.right);
    }
  }

  lemma RemovedOnlyChild(t: Tree, c: Tree, t': Tree)
    requires t.Bin? && Sound(t) && c.Bin?
    requires (t.left.Leaf? && c == t.right) || (t.right.Leaf? && c == t.left)
    requires t' == Bin(t.ptr, Leaf, c.hole, 1, Leaf)
    ensures Removed(t, t.hole, c.ptr, t', true)
  {
    OnlyChildIsLeaf(t);
    assert Holes(c) == {c.hole} && Nodes(c) == {c.ptr};
  }

  /** Giving the root its predecessor's hole leaves that hole to be removed from the left subtree. */
  lemma PredecessorTakesOver(t: Tree)
    requires t.Bin? && t.left.Bin? && Sound(t)
    ensures var last := LastHole(t.left);
            && ReadyToLoseLeft(t.(hole := last), last)
            && Holes(t.left) - {last} + {last} + Holes(t.right) == Holes(t) - {t.hole}
  {
    LastHoleIsGreatest(t.left);
    assert t.hole !in Holes(t.left) && t.hole !in Holes(t.right);
  }

  ghost function Count(t: Tree): nat {
    if t.Leaf? then 0 else Count(t.left) + 1 + Count(t.right)
  }

  function Fib(n: nat): nat {
    if n < 2 then n else Fib(n - 2) + Fib(n - 1)
  }

  lemma {:induction false} CountIsNodes(t: Tree)
    requires Separate(t)
    ensures |Nodes(t)| == Count(t)
    decreases t
  {
    if t.Bin? {
      CountIsNodes(t.left);
      CountIsNodes(t.right);
      assert |{t.ptr} + Nodes(t.left)| == 1 + |Nodes(t.left)|;
    }
  }

  lemma {:induction false} CountIsHoles(t: Tree)
    requires Ordered(t)
    ensures |Holes(t)| == Count(t)
    decreases t
  {
    if t.Bin? {
      CountIsHoles(t.left);
      CountIsHoles(t.right);
      assert Holes(t.left) !! {t.hole} && (Holes(t.left) + {t.hole}) !! Holes(t.right);
    }
  }

  /** A balanced tree of height h has at least Fib(h + 2) - 1 nodes, so every descent is logarithmic in their number. */
  lemma {:induction false} HeightIsLogarithmic(t: Tree)
    requires Balanced(t)
    ensures Count(t) >= Fib(Height(t) + 2) - 1
    decreases t
  {
    if t.Bin? {
      HeightIsLogarithmic(t.left);
      HeightIsLogarithmic(t.right);
      FibMonotonic(Height(t), Height(t.left) + 2);
      FibMonotonic(Height(t), Height(t.right) + 2);
    }
  }

  lemma {:induction false} FibMonotonic(a: nat, b: nat)
    requires 1 <= a <= b
    ensures Fib(a) <= Fib(b)
    decreases b
  {
    if a < b {
      FibMonotonic(a, b - 1);
    }
  }

  /** The Fibonacci numbers grow at least like the powers of two of half the index. */
  lemma {:induction false} FibIsExponential(n: nat)
    ensures Fib(n + 2) >= Pow2(n / 2)
    decreases n
  {
    if n >= 2 {
      FibIsExponential(n - 2);
      FibMonotonic(n, n + 1);
    } else {
      assert Fib(2) == 1 && Fib(3) == 2;
    }
  }
}

/** The index of holes as the allocator keeps it: an AVL tree whose nodes are cells of one
    fixed buffer, rewired in place. A node reference is a cell number, or `Null`. */
module KallocAvl {
  import opened Alignment
  import opened HoleSearch
  import opened HoleTree
  import opened Wrappers

  const Null := -1

  /** While a cell is spare, `left` and `right` are its neighbours in the free list. */
  datatype Cell = Cell(left: int, right: int, height: int, size: nat, addr: nat)

  ghost predicate Mirrors(m: seq<Cell>, n: int, t: Tree)
    decreases t
  {
    match t
    case Leaf => n == Null
    case Bin(p, l, h, height, r) =>
      && n == p && 0 <= p < |m|
      && Hole(m[p].size, m[p].addr) == h && m[p].height == height
      && Mirrors(m, m[p].left, l) && Mirrors(m, m[p].right, r)
  }

  ghost function At(list: seq<int>, i: int): int {
    if 0 <= i < |list| then list[i] else Null
  }

  /** `list` is a doubly linked list from `head`, closed by `Null` at both ends. */
  ghost predicate Chained(m: seq<Cell>, head: int, list: seq<int>) {
    && head == At(list, 0)
    && (forall i :: 0 <= i < |list| ==> 0 <= list[i] < |m|)
    && (forall i {:trigger m[list[i]]} :: 0 <= i < |list| ==>
          m[list[i]].left == At(list, i - 1) && m[list[i]].right == At(list, i + 1))
    && (forall i, j :: 0 <= i < j < |list| ==> list[i] != list[j])
  }

  /** `m'` differs from `m` at most in the cells of `changed`. */
  ghost predicate OnlyChanged(m: seq<Cell>, m': seq<Cell>, changed: set<int>) {
    && |m'| == |m|
    && forall i :: 0 <= i < |m| && i !in changed ==> m'[i] == m[i]
  }

  /** The references of a buffer of `n` cells, in order. */
  ghost function AllCells(n: nat): (cells: seq<int>)
    ensures |cells| == n && forall i :: 0 <= i < n ==> cells[i] == i
  {
    seq(n, i => i)
  }

  /** Cells linked in the order of the buffer form one list. */
  lemma LinkedInOrder(m: seq<Cell>)
    requires m != []
    requires forall k :: 0 <= k < |m| ==>
      m[k].left == (if k > 0 then k - 1 else Null) && m[k].right == (if k != |m| - 1 then k + 1 else Null)
    ensures Chained(m, 0, AllCells(|m|))
    ensures forall c :: c in AllCells(|m|) <==> 0 <= c < |m|
  {
    forall c ensures c in AllCells(|m|) <==> 0 <= c < |m| {
      if 0 <= c < |m| {
        assert AllCells(|m|)[c] == c;
      }
    }
  }

  /** What the head of a free list looks like, and the list left when it is unlinked. */
  lemma Unlinked(m: seq<Cell>, head: int, list: seq<int>)
    requires Chained(m, head, list) && list != []
    ensures 0 <= head < |m| && head == list[0]
    ensures var next := m[head].right;
            && next == At(list, 1)
            && (next != Null ==> 0 <= next < |m| && m[next].left == head)
            && Chained(if next == Null then m else m[next := m[next].(left := Null)], next, list[1..])
  {
    var next := m[head].right;
    assert m[list[0]].right == next;
    if |list| > 1 {
      assert m[list[1]].left == head;
      TailStaysLinked(m, m[next := m[next].(left := Null)], list, next, list[1..]);
    } else {
      assert list[1..] == [];
    }
  }

  lemma TailStaysLinked(m: seq<Cell>, m': seq<Cell>, list: seq<int>, next: int, tail: seq<int>)
    requires |list| > 1 && Chained(m, list[0], list) && next == list[1] && tail == list[1..]
    requires m' == m[next := m[next].(left := Null)]
    ensures Chained(m', next, tail)
  {
    forall i | 0 <= i < |tail|
      ensures m'[tail[i]].left == At(tail, i - 1) && m'[tail[i]].right == At(tail, i + 1)
    {
      assert tail[i] == list[i + 1] && m[list[i + 1]].right == At(list, i + 2);
      assert i > 0 ==> list[i + 1] != next;
    }
  }

  /** The list after a cell is linked in front. */
  lemma Pushed(m: seq<Cell>, head: int, list: seq<int>, n: int)
    requires Chained(m, head, list) && 0 <= n < |m| && n !in list
    ensures head != Null ==> 0 <= head < |m| && head != n && head in list && m[head].left == Null
    ensures var m1 := m[n := m[n].(left := Null, right := head)];
            Chained(if head == Null then m1 else m1[head := m1[head].(left := n)], n, [n] + list)
  {
    if list != [] {
      assert m[list[0]].left == Null;
    }
    var m1 := m[n := m[n].(left := Null, right := head)];
    var m', longer := if head == Null then m1 else m1[head := m1[head].(left := n)], [n] + list;
    forall i | 0 <= i < |longer|
      ensures m'[longer[i]].left == At(longer, i - 1) && m'[longer[i]].right == At(longer, i + 1)
    {
      if i > 0 {
        assert longer[i] == list[i - 1];
      }
    }
  }

  lemma {:induction false} Unmoved(m: seq<Cell>, m': seq<Cell>, n: int, t: Tree, changed: set<int>)
    requires Mirrors(m, n, t) && OnlyChanged(m, m', changed) && changed !! Nodes(t)
    ensures Mirrors(m', n, t)
    decreases t
  {
    if t.Bin? {
      assert t.ptr in Nodes(t);
      Unmoved(m, m', m[n].left, t.left, changed);
      Unmoved(m, m', m[n].right, t.right, changed);
    }
  }

  lemma MirroredRoot(m: seq<Cell>, n: int, t: Tree)
    requires Mirrors(m, n, t)
    ensures n == Null <==> t.Leaf?
    ensures n != Null ==> 0 <= n < |m| && n == t.ptr && n in Nodes(t) && m[n].height == t.height
  {}

  function HeightIn(m: seq<Cell>, n: int): int
    requires n == Null || 0 <= n < |m|
  {
    if n == Null then 0 else m[n].height
  }

  /** Cell `n` given new children and a height recomputed from theirs. */
  function Rehung(m: seq<Cell>, n: int, l: int, r: int): seq<Cell>
    requires 0 <= n < |m| && (l == Null || 0 <= l < |m|) && (r == Null || 0 <= r < |m|)
  {
    m[n := m[n].(left := l, right := r, height := Max(HeightIn(m, r), HeightIn(m, l)) + 1)]
  }

  /** Rehanging a cell over two mirrored subtrees it is not part of makes it mirror their join. */
  lemma RehungMirrors(m: seq<Cell>, n: int, l: Tree, h: Hole, r: Tree, nl: int, nr: int)
    requires 0 <= n < |m| && Hole(m[n].size, m[n].addr) == h
    requires Mirrors(m, nl, l) && Mirrors(m, nr, r) && n !in Nodes(l) && n !in Nodes(r)
    ensures (nl == Null || 0 <= nl < |m|) && (nr == Null || 0 <= nr < |m|)
    ensures Mirrors(Rehung(m, n, nl, nr), n, Join(n, l, h, r))
  {
    MirroredRoot(m, nl, l);
    MirroredRoot(m, nr, r);
    Unmoved(m, Rehung(m, n, nl, nr), nl, l, {n});
    Unmoved(m, Rehung(m, n, nl, nr), nr, r, {n});
  }

  /** A separate tree's root, and the root of either subtree, lie outside the other parts. */
  lemma Apart(t: Tree)
    requires t.Bin? && Separate(t)
    ensures Nodes(t) == {t.ptr} + Nodes(t.left) + Nodes(t.right)
    ensures t.right.Bin? ==>
              && Separate(t.right) && t.right.ptr != t.ptr
              && t.ptr !in Nodes(t.right.left) && t.ptr !in Nodes(t.right.right)
              && t.right.ptr !in Nodes(t.left)
              && t.right.ptr !in Nodes(t.right.left) && t.right.ptr !in Nodes(t.right.right)
              && Nodes(t.right) == {t.right.ptr} + Nodes(t.right.left) + Nodes(t.right.right)
    ensures t.left.Bin? ==>
              && Separate(t.left) && t.left.ptr != t.ptr
              && t.ptr !in Nodes(t.left.left) && t.ptr !in Nodes(t.left.right)
              && t.left.ptr !in Nodes(t.right)
              && t.left.ptr !in Nodes(t.left.left) && t.left.ptr !in Nodes(t.left.right)
              && Nodes(t.left) == {t.left.ptr} + Nodes(t.left.left) + Nodes(t.left.right)
  {}

  ghost predicate IsRef(m: seq<Cell>, n: int) {
    n == Null || 0 <= n < |m|
  }

  /** Two cells rehung one after the other, the second over the first. */
  ghost function Rotated(m: seq<Cell>, low: int, ll: int, lr: int, top: int, tl: int, tr: int): seq<Cell>
    requires 0 <= low < |m| && 0 <= top < |m|
    requires IsRef(m, ll) && IsRef(m, lr) && IsRef(m, tl) && IsRef(m, tr)
  {
    Rehung(Rehung(m, low, ll, lr), top, tl, tr)
  }

  lemma RotatedLeft(m: seq<Cell>, root: int, t: Tree)
    requires t.Bin? && t.right.Bin? && Separate(t) && Mirrors(m, root, t)
    ensures var pivot := m[root].right;
            && 0 <= pivot < |m|
            && var a, b, c := m[root].left, m[pivot].left, m[pivot].right;
            && IsRef(m, a) && IsRef(m, b) && IsRef(m, c)
            && root != pivot && a != root && a != pivot && b != root && b != pivot && c != root && c != pivot
            && Mirrors(Rotated(m, root, a, b, pivot, root, c), pivot, RotateLeft(t))
  {
    var pivot := m[root].right;
    var a, b, c := m[root].left, m[pivot].left, m[pivot].right;
    Apart(t);
    MirroredRoot(m, a, t.left);
    MirroredRoot(m, b, t.right.left);
    MirroredRoot(m, c, t.right.right);
    var m1 := Rehung(m, root, a, b);
    RehungMirrors(m, root, t.left, t.hole, t.right.left, a, b);
    Unmoved(m, m1, c, t.right.right, {root});
    RehungMirrors(m1, pivot, RotateLeft(t).left, t.right.hole, t.right.right, root, c);
  }

  lemma RotatedRight(m: seq<Cell>, root: int, t: Tree)
    requires t.Bin? && t.left.Bin? && Separate(t) && Mirrors(m, root, t)
    ensures var pivot := m[root].left;
            && 0 <= pivot < |m|
            && var a, b, c := m[pivot].left, m[pivot].right, m[root].right;
            && IsRef(m, a) && IsRef(m, b) && IsRef(m, c)
            && root != pivot && a != root && a != pivot && b != root && b != pivot && c != root && c != pivot
            && Mirrors(Rotated(m, root, b, c, pivot, a, root), pivot, RotateRight(t))
  {
    var pivot := m[root].left;
    var a, b, c := m[pivot].left, m[pivot].right, m[root].right;
    Apart(t);
    MirroredRoot(m, a, t.left.left);
    MirroredRoot(m, b, t.left.right);
    MirroredRoot(m, c, t.right);
    var m1 := Rehung(m, root, b, c);
    RehungMirrors(m, root, t.left.right, t.hole, t.right, b, c);
    Unmoved(m, m1, a, t.left.left, {root});
    RehungMirrors(m1, pivot, t.left.left, t.left.hole, RotateRight(t).right, a, root);
  }

  /** `x` rehung over `a` and `b`, and `y` over `c` and `d`. */
  ghost function RehungBoth(m: seq<Cell>, x: int, a: int, b: int, y: int, c: int, d: int): seq<Cell>
    requires 0 <= x < |m| && 0 <= y < |m|
    requires IsRef(m, a) && IsRef(m, b) && IsRef(m, c) && IsRef(m, d)
  {
    Rehung(Rehung(m, x, a, b), y, c, d)
  }

  ghost predicate Outside(n: int, ta: Tree, tb: Tree, tc: Tree, td: Tree) {
    n !in Nodes(ta) && n !in Nodes(tb) && n !in Nodes(tc) && n !in Nodes(td)
  }

  lemma RehungBothMirror(m: seq<Cell>, x: int, a: int, b: int, y: int, c: int, d: int, ta: Tree, tb: Tree, tc: Tree,
                         td: Tree, hx: Hole, hy: Hole)
    requires 0 <= x < |m| && 0 <= y < |m| && x != y
    requires Hole(m[x].size, m[x].addr) == hx && Hole(m[y].size, m[y].addr) == hy
    requires Mirrors(m, a, ta) && Mirrors(m, b, tb) && Mirrors(m, c, tc) && Mirrors(m, d, td)
    requires Outside(x, ta, tb, tc, td) && Outside(y, ta, tb, tc, td)
    ensures IsRef(m, a) && IsRef(m, b) && IsRef(m, c) && IsRef(m, d)
    ensures Mirrors(RehungBoth(m, x, a, b, y, c, d), x, Join(x, ta, hx, tb))
    ensures Mirrors(RehungBoth(m, x, a, b, y, c, d), y, Join(y, tc, hy, td))
  {
    var m1 := Rehung(m, x, a, b);
    RehungMirrors(m, x, ta, hx, tb, a, b);
    Unmoved(m, m1, c, tc, {x});
    Unmoved(m, m1, d, td, {x});
    RehungMirrors(m1, y, tc, hy, td, c, d);
    Unmoved(m1, Rehung(m1, y, c, d), x, Join(x, ta, hx, tb), {y});
  }

  lemma RotatedLeftTwice(m: seq<Cell>, top: int, middle: int, bottom: int, a: int, b: int, c: int, d: int, t: Tree)
    requires t.Bin? && t.right.Bin? && t.right.left.Bin? && Separate(t) && Mirrors(m, top, t)
    requires middle == t.right.ptr && bottom == t.right.left.ptr
    requires 0 <= middle < |m| && 0 <= bottom < |m| && top != middle
    requires a == m[top].left && b == m[bottom].left && c == m[bottom].right && d == m[middle].right
    requires IsRef(m, a) && IsRef(m, b) && IsRef(m, c) && IsRef(m, d)
    ensures Mirrors(Rehung(RehungBoth(m, top, a, b, middle, c, d), bottom, top, middle), bottom, DoubleRotateLeft(t))
  {
    var r, q := t.right, t.right.left;
    Apart(t);
    Apart(r);
    assert Mirrors(m, m[top].right, r);
    assert Mirrors(m, m[middle].left, q);
    RehungBothMirror(m, top, a, b, middle, c, d, t.left, q.left, q.right, r.right, t.hole, r.hole);
    RehungMirrors(RehungBoth(m, top, a, b, middle, c, d), bottom,
                  Join(top, t.left, t.hole, q.left), q.hole, Join(middle, q.right, r.hole, r.right), top, middle);
  }

  lemma RotatedRightTwice(m: seq<Cell>, top: int, middle: int, bottom: int, a: int, b: int, c: int, d: int, t: Tree)
    requires t.Bin? && t.left.Bin? && t.left.right.Bin? && Separate(t) && Mirrors(m, top, t)
    requires middle == t.left.ptr && bottom == t.left.right.ptr
    requires 0 <= middle < |m| && 0 <= bottom < |m| && top != middle
    requires a == m[middle].left && b == m[bottom].left && c == m[bottom].right && d == m[top].right
    requires IsRef(m, a) && IsRef(m, b) && IsRef(m, c) && IsRef(m, d)
    ensures Mirrors(Rehung(RehungBoth(m, top, c, d, middle, a, b), bottom, middle, top), bottom, DoubleRotateRight(t))
  {
    var l, q := t.left, t.left.right;
    Apart(t);
    Apart(l);
    assert Mirrors(m, m[top].left, l);
    assert Mirrors(m, m[middle].right, q);
    RehungBothMirror(m, top, c, d, middle, a, b, q.right, t.right, l.left, q.left, t.hole, l.hole);
    RehungMirrors(RehungBoth(m, top, c, d, middle, a, b), bottom,
                  Join(middle, l.left, l.hole, q.left), q.hole, Join(top, q.right, t.hole, t.right), middle, top);
  }

  /** The root of a mirrored tree and the references it holds. */
  lemma Follow(m: seq<Cell>, n: int, t: Tree)
    requires Mirrors(m, n, t) && t.Bin?
    ensures 0 <= n < |m| && n == t.ptr && n in Nodes(t)
    ensures Mirrors(m, m[n].left, t.left) && IsRef(m, m[n].left)
    ensures Mirrors(m, m[n].right, t.right) && IsRef(m, m[n].right)
    ensures Nodes(t.left) <= Nodes(t) && Nodes(t.right) <= Nodes(t)
  {}

  /** Sign of the comparison of two holes. */
  function CompareHole(a: Hole, b: Hole): (c: int)
    ensures c > 0 <==> Less(b, a)
    ensures c < 0 <==> Less(a, b)
    ensures c == 0 <==> a == b
  {
    if a.size > b.size then 1
    else if a.size < b.size then -1
    else if a.addr > b.addr then 1
    else if a.addr < b.addr then -1
    else 0
  }

  ghost function Members(list: seq<int>): set<int> {
    set n | n in list
  }

  lemma ChainUnmoved(m: seq<Cell>, m': seq<Cell>, head: int, list: seq<int>, changed: set<int>)
    requires Chained(m, head, list) && OnlyChanged(m, m', changed) && changed !! Members(list)
    ensures Chained(m', head, list)
  {
    forall i | 0 <= i < |list| ensures m'[list[i]] == m[list[i]] {
      assert list[i] in Members(list);
    }
  }

  /** A new right subtree hung under the root, after changes outside root and left subtree. */
  lemma HungRight(m: seq<Cell>, m': seq<Cell>, n: int, t: Tree, right: int, r: Tree, changed: set<int>)
    requires t.Bin? && Mirrors(m, n, t) && Separate(t)
    requires OnlyChanged(m, m', changed) && n !in changed && changed !! Nodes(t.left)
    requires Mirrors(m', right, r) && n !in Nodes(r)
    ensures 0 <= n < |m'| && Mirrors(m'[n := m'[n].(right := right)], n, t.(right := r))
  {
    var m'' := m'[n := m'[n].(right := right)];
    Unmoved(m, m'', m[n].left, t.left, changed + {n});
    Unmoved(m', m'', right, r, {n});
  }

  lemma HungLeft(m: seq<Cell>, m': seq<Cell>, n: int, t: Tree, left: int, l: Tree, changed: set<int>)
    requires t.Bin? && Mirrors(m, n, t) && Separate(t)
    requires OnlyChanged(m, m', changed) && n !in changed && changed !! Nodes(t.right)
    requires Mirrors(m', left, l) && n !in Nodes(l)
    ensures 0 <= n < |m'| && Mirrors(m'[n := m'[n].(left := left)], n, t.(left := l))
  {
    var m'' := m'[n := m'[n].(left := left)];
    Unmoved(m, m'', m[n].right, t.right, changed + {n});
    Unmoved(m', m'', left, l, {n});
  }

  lemma {:induction false} MembersOfDistinct(list: seq<int>)
    requires forall i, j :: 0 <= i < j < |list| ==> list[i] != list[j]
    ensures |Members(list)| == |list|
  {
    if list != [] {
      var n := |list| - 1;
      MembersOfDistinct(list[..n]);
      assert list == list[..n] + [list[n]];
      assert Members(list) == Members(list[..n]) + {list[n]};
    }
  }

  lemma {:induction false} FirstNumbers(s: set<int>, n: nat)
    requires forall c :: c in s <==> 0 <= c < n
    ensures |s| == n
  {
    if n > 0 {
      FirstNumbers(s - {n - 1}, n - 1);
    } else {
      assert forall c :: c !in s;
    }
  }

  class Avl {
    const pool: array<Cell>
    var free: int
    var root: int
    ghost var tree: Tree
    ghost var spare: seq<int>

    /** The tree mirrors the cells from `root`, the free list runs from `free`, and together they are the whole pool. */
    ghost predicate Valid()
      reads this, pool
    {
      && Mirrors(pool[..], root, tree) && Sound(tree)
      && Chained(pool[..], free, spare)
      && Members(spare) !! Nodes(tree)
      && (forall c :: c in spare || c in Nodes(tree) <==> 0 <= c < pool.Length)
    }

    /** The holes the index holds. */
    ghost function Index(): set<Hole>
      reads this
    {
      Holes(tree)
    }

    /** Every cell of the pool is either spare or holds one hole, so an insertion finds a cell unless there are as many
        holes as cells. */
    lemma PoolIsPartitioned()
      requires Valid()
      ensures |spare| + |Index()| == pool.Length
    {
      MembersOfDistinct(spare);
      CountIsNodes(tree);
      CountIsHoles(tree);
      FirstNumbers(Members(spare) + Nodes(tree), pool.Length);
    }

    /** The depth of every descent is logarithmic in the number of holes. */
    lemma DepthIsLogarithmic()
      requires Valid()
      ensures |Index()| >= Fib(Height(tree) + 2) - 1
      ensures |Index()| + 1 >= Pow2(Height(tree) / 2)
    {
      CountIsHoles(tree);
      HeightIsLogarithmic(tree);
      FibIsExponential(Height(tree));
    }

    /** Turns the whole buffer into the free list. */
    constructor (pool: array<Cell>)
      requires pool.Length > 0
      modifies pool
      ensures this.pool == pool
      ensures Valid() && Index() == {} && |spare| == pool.Length
    {
      this.pool := pool;
      free, root := 0, Null;
      tree, spare := Leaf, AllCells(pool.Length);
      new;
      for i := 0 to pool.Length
        invariant root == Null && tree == Leaf && spare == AllCells(pool.Length) && free == 0
        invariant forall k :: 0 <= k < i ==>
          && pool[k].left == (if k > 0 then k - 1 else Null)
          && pool[k].right == (if k != pool.Length - 1 then k + 1 else Null)
      {
        var previous := if i > 0 then i - 1 else Null;
        var next := if i != pool.Length - 1 then i + 1 else Null;
        pool[i] := Cell(previous, next, 0, 0, 0);
      }
      LinkedInOrder(pool[..]);
    }

    function HeightOf(n: int): int
      requires n == Null || 0 <= n < pool.Length
      reads pool
    {
      if n == Null then 0 else pool[n].height
    }

    function BalanceFactor(n: int): int
      requires 0 <= n < pool.Length && IsRef(pool[..], pool[n].left) && IsRef(pool[..], pool[n].right)
      reads pool
    {
      HeightOf(pool[n].right) - HeightOf(pool[n].left)
    }

    /** Gives a node new children and updates its height. */
    method Rehang(n: int, l: int, r: int)
      requires 0 <= n < pool.Length && IsRef(pool[..], l) && IsRef(pool[..], r)
      modifies pool
      ensures pool[..] == Rehung(old(pool[..]), n, l, r)
    {
      pool[n] := pool[n].(left := l, right := r, height := Max(HeightOf(r), HeightOf(l)) + 1);
    }

    method RotateLeftAt(root: int, ghost t: Tree) returns (pivot: int)
      requires t.Bin? && t.right.Bin? && Separate(t) && Mirrors(pool[..], root, t)
      modifies pool
      ensures Mirrors(pool[..], pivot, RotateLeft(t))
      ensures OnlyChanged(old(pool[..]), pool[..], Nodes(t))
    {
      RotatedLeft(pool[..], root, t);
      pivot := pool[root].right;
      var right := pool[pivot].right;
      Rehang(root, pool[root].left, pool[pivot].left);
      Rehang(pivot, root, right);
    }

    method RotateRightAt(root: int, ghost t: Tree) returns (pivot: int)
      requires t.Bin? && t.left.Bin? && Separate(t) && Mirrors(pool[..], root, t)
      modifies pool
      ensures Mirrors(pool[..], pivot, RotateRight(t))
      ensures OnlyChanged(old(pool[..]), pool[..], Nodes(t))
    {
      RotatedRight(pool[..], root, t);
      pivot := pool[root].left;
      var left := pool[pivot].left;
      Rehang(root, pool[pivot].right, pool[root].right);
      Rehang(pivot, left, root);
    }

    method DoubleRotateLeftAt(top: int, ghost t: Tree) returns (bottom: int)
      requires t.Bin? && t.right.Bin? && t.right.left.Bin? && Separate(t) && Mirrors(pool[..], top, t)
      modifies pool
      ensures Mirrors(pool[..], bottom, DoubleRotateLeft(t))
      ensures OnlyChanged(old(pool[..]), pool[..], Nodes(t))
    {
      Follow(pool[..], top, t);
      var middle := pool[top].right;
      Follow(pool[..], middle, t.right);
      bottom := pool[middle].left;
      Follow(pool[..], bottom, t.right.left);
      Apart(t);
      var a, b, c, d := pool[top].left, pool[bottom].left, pool[bottom].right, pool[middle].right;
      RotatedLeftTwice(pool[..], top, middle, bottom, a, b, c, d, t);
      Rehang(top, a, b);
      Rehang(middle, c, d);
      Rehang(bottom, top, middle);
    }

    method DoubleRotateRightAt(top: int, ghost t: Tree) returns (bottom: int)
      requires t.Bin? && t.left.Bin? && t.left.right.Bin? && Separate(t) && Mirrors(pool[..], top, t)
      modifies pool
      ensures Mirrors(pool[..], bottom, DoubleRotateRight(t))
      ensures OnlyChanged(old(pool[..]), pool[..], Nodes(t))
    {
      Follow(pool[..], top, t);
      var middle := pool[top].left;
      Follow(pool[..], middle, t.left);
      bottom := pool[middle].right;
      Follow(pool[..], bottom, t.left.right);
      Apart(t);
      var a, b, c, d := pool[middle].left, pool[bottom].left, pool[bottom].right, pool[top].right;
      RotatedRightTwice(pool[..], top, middle, bottom, a, b, c, d, t);
      Rehang(top, c, d);
      Rehang(middle, a, b);
      Rehang(bottom, middle, top);
    }

    /** Applies the rotations a node leaning two to the right needs. */
    method RaiseRightAt(root: int, ghost t: Tree) returns (top: int)
      requires t.Bin? && Mirrors(pool[..], root, t) && Balanced(t.left) && Balanced(t.right) && Separate(t)
      requires Lean(t) == 2
      modifies pool
      ensures t.right.Bin? && (Lean(t.right) == -1 ==> t.right.left.Bin?)
      ensures StoredHeight(t.right.right) - StoredHeight(t.right.left) == Lean(t.right)
      ensures Mirrors(pool[..], top, RaiseRight(t))
      ensures OnlyChanged(old(pool[..]), pool[..], Nodes(t))
    {
      RaiseRightRepairs(t);
      Follow(pool[..], root, t);
      var right := pool[root].right;
      Follow(pool[..], right, t.right);
      MirroredRoot(pool[..], pool[right].left, t.right.left);
      MirroredRoot(pool[..], pool[right].right, t.right.right);
      if BalanceFactor(right) == -1 {
        top := DoubleRotateLeftAt(root, t);
      } else {
        top := RotateLeftAt(root, t);
      }
    }

    method RaiseLeftAt(root: int, ghost t: Tree) returns (top: int)
      requires t.Bin? && Mirrors(pool[..], root, t) && Balanced(t.left) && Balanced(t.right) && Separate(t)
      requires Lean(t) == -2
      modifies pool
      ensures t.left.Bin? && (Lean(t.left) == 1 ==> t.left.right.Bin?)
      ensures StoredHeight(t.left.right) - StoredHeight(t.left.left) == Lean(t.left)
      ensures Mirrors(pool[..], top, RaiseLeft(t))
      ensures OnlyChanged(old(pool[..]), pool[..], Nodes(t))
    {
      RaiseLeftRepairs(t);
      Follow(pool[..], root, t);
      var left := pool[root].left;
      Follow(pool[..], left, t.left);
      MirroredRoot(pool[..], pool[left].left, t.left.left);
      MirroredRoot(pool[..], pool[left].right, t.left.right);
      if BalanceFactor(left) == 1 {
        top := DoubleRotateRightAt(root, t);
      } else {
        top := RotateRightAt(root, t);
      }
    }

    /** Unlinks the head of the free list. */
    method GetFreeNode() returns (target: int)
      requires Chained(pool[..], free, spare) && spare != []
      modifies pool, this`free, this`spare
      ensures target == old(spare[0]) && spare == old(spare)[1..]
      ensures Chained(pool[..], free, spare)
      ensures OnlyChanged(old(pool[..]), pool[..], Members(old(spare)))
    {
      Unlinked(pool[..], free, spare);
      target := free;
      if pool[free].right != Null {
        assert pool[pool[free].right].left == target;
        pool[pool[free].right] := pool[pool[free].right].(left := Null);
      }
      free := pool[target].right;
      spare := spare[1..];
    }

    /** Links a node in front of the free list. */
    method PutFreeNode(node: int)
      requires Chained(pool[..], free, spare) && node !in spare && 0 <= node < pool.Length
      modifies pool, this`free, this`spare
      ensures spare == [node] + old(spare)
      ensures Chained(pool[..], free, spare)
      ensures OnlyChanged(old(pool[..]), pool[..], Members(spare))
    {
      Pushed(pool[..], free, spare, node);
      var previous := free;
      free := node;
      pool[free] := pool[free].(left := Null, right := previous);
      if previous != Null {
        assert pool[previous].left == Null;
        pool[previous] := pool[previous].(left := free);
      }
      spare := [node] + spare;
    }

    /** After the right subtree of `node` grew by one: rebalance, and tell whether the whole grew. */
    method AbsorbRightGrowth(node: int, ghost u: Tree) returns (top: int, grew: bool, ghost u': Tree)
      requires u.Bin? && Mirrors(pool[..], node, u) && Separate(u)
      requires Balanced(u.left) && Balanced(u.right) && 0 <= Lean(u) <= 2
      requires u.height == Height(u) - (if Lean(u) > 0 then 1 else 0)
      requires Lean(u.right) != 0 || Height(u.right) == 1
      modifies pool
      ensures u'.Bin? && Mirrors(pool[..], top, u') && Balanced(u') && SameContent(u, u')
      ensures Height(u') == u.height + (if grew then 1 else 0)
      ensures grew ==> Lean(u') != 0
      ensures OnlyChanged(old(pool[..]), pool[..], Nodes(u))
    {
      Follow(pool[..], node, u);
      MirroredRoot(pool[..], pool[node].left, u.left);
      MirroredRoot(pool[..], pool[node].right, u.right);
      StoredIsTrue(u.left);
      StoredIsTrue(u.right);
      var balance := BalanceFactor(node);
      assert 0 <= balance <= 2;
      top, u' := node, u;
      if balance == 0 {
        grew := false;
      } else if balance == 1 {
        grew := true;
        ghost var m := pool[..];
        pool[node] := pool[node].(height := pool[node].height + 1);
        u' := u.(height := u.height + 1);
        Unmoved(m, pool[..], m[node].left, u.left, {node});
        Unmoved(m, pool[..], m[node].right, u.right, {node});
      } else {
        RaiseRightRepairs(u);
        top := RaiseRightAt(node, u);
        u' := RaiseRight(u);
        grew := false;
      }
    }

    method AbsorbLeftGrowth(node: int, ghost u: Tree) returns (top: int, grew: bool, ghost u': Tree)
      requires u.Bin? && Mirrors(pool[..], node, u) && Separate(u)
      requires Balanced(u.left) && Balanced(u.right) && -2 <= Lean(u) <= 0
      requires u.height == Height(u) - (if Lean(u) < 0 then 1 else 0)
      requires Lean(u.left) != 0 || Height(u.left) == 1
      modifies pool
      ensures u'.Bin? && Mirrors(pool[..], top, u') && Balanced(u') && SameContent(u, u')
      ensures Height(u') == u.height + (if grew then 1 else 0)
      ensures grew ==> Lean(u') != 0
      ensures OnlyChanged(old(pool[..]), pool[..], Nodes(u))
    {
      Follow(pool[..], node, u);
      MirroredRoot(pool[..], pool[node].left, u.left);
      MirroredRoot(pool[..], pool[node].right, u.right);
      StoredIsTrue(u.left);
      StoredIsTrue(u.right);
      var balance := BalanceFactor(node);
      assert -2 <= balance <= 0;
      top, u' := node, u;
      if balance == 0 {
        grew := false;
      } else if balance == -1 {
        grew := true;
        ghost var m := pool[..];
        pool[node] := pool[node].(height := pool[node].height + 1);
        u' := u.(height := u.height + 1);
        Unmoved(m, pool[..], m[node].left, u.left, {node});
        Unmoved(m, pool[..], m[node].right, u.right, {node});
      } else {
        RaiseLeftRepairs(u);
        top := RaiseLeftAt(node, u);
        u' := RaiseLeft(u);
        grew := false;
      }
    }

    method InsertInternal(node: int, hole: Hole, ghost t: Tree) returns (top: int, grew: bool, ghost t': Tree)
      requires Mirrors(pool[..], node, t) && Sound(t) && hole !in Holes(t)
      requires Chained(pool[..], free, spare) && spare != [] && Members(spare) !! Nodes(t)
      modifies pool, this`free, this`spare
      ensures spare == old(spare)[1..] && Chained(pool[..], free, spare)
      ensures Mirrors(pool[..], top, t') && Inserted(t, hole, old(spare[0]), t', grew)
      ensures OnlyChanged(old(pool[..]), pool[..], Nodes(t) + Members(old(spare)))
      decreases t, 2
    {
      MirroredRoot(pool[..], node, t);
      if node == Null {
        top := GetFreeNode();
        ghost var m := pool[..];
        pool[top] := Cell(Null, Null, 1, hole.size, hole.addr);
        ChainUnmoved(m, pool[..], free, spare, {top});
        grew, t' := true, Bin(top, Leaf, hole, 1, Leaf);
      } else {
        var comparison := CompareHole(hole, Hole(pool[node].size, pool[node].addr));
        assert comparison != 0;
        if comparison > 0 {
          top, grew, t' := InsertRight(node, hole, t);
        } else {
          top, grew, t' := InsertLeft(node, hole, t);
        }
      }
    }

    /** Inserts into the right subtree of `node` and hangs the result back, before any rebalancing. */
    method InsertIntoRight(node: int, hole: Hole, ghost t: Tree) returns (grew: bool, ghost r: Tree)
      requires t.Bin? && Mirrors(pool[..], node, t) && Sound(t) && hole !in Holes(t)
      requires Chained(pool[..], free, spare) && spare != [] && Members(spare) !! Nodes(t)
      modifies pool, this`free, this`spare
      ensures spare == old(spare)[1..] && Chained(pool[..], free, spare)
      ensures Mirrors(pool[..], node, t.(right := r)) && Inserted(t.right, hole, old(spare[0]), r, grew)
      ensures OnlyChanged(old(pool[..]), pool[..], Nodes(t) + Members(old(spare)))
      decreases t, 0
    {
      Follow(pool[..], node, t);
      ghost var m, changed := pool[..], Nodes(t.right) + Members(spare);
      var right;
      right, grew, r := InsertInternal(pool[node].right, hole, t.right);
      ghost var m' := pool[..];
      HungRight(m, m', node, t, right, r, changed);
      pool[node] := pool[node].(right := right);
      ChainUnmoved(m', pool[..], free, spare, {node});
    }

    method InsertRight(node: int, hole: Hole, ghost t: Tree) returns (top: int, grew: bool, ghost t': Tree)
      requires t.Bin? && Mirrors(pool[..], node, t) && Sound(t) && hole !in Holes(t) && Less(t.hole, hole)
      requires Chained(pool[..], free, spare) && spare != [] && Members(spare) !! Nodes(t)
      modifies pool, this`free, this`spare
      ensures spare == old(spare)[1..] && Chained(pool[..], free, spare)
      ensures Mirrors(pool[..], top, t') && Inserted(t, hole, old(spare[0]), t', grew)
      ensures OnlyChanged(old(pool[..]), pool[..], Nodes(t) + Members(old(spare)))
      decreases t, 1
    {
      ghost var r;
      grew, r := InsertIntoRight(node, hole, t);
      InsertedRight(t, hole, old(spare[0]), r, grew);
      top, t' := node, t.(right := r);
      if grew {
        ghost var m := pool[..];
        ghost var u := t';
        top, grew, t' := AbsorbRightGrowth(node, u);
        InsertedAndRepaired(t, hole, old(spare[0]), u, t', grew);
        ChainUnmoved(m, pool[..], free, spare, Nodes(t) + {old(spare[0])});
      }
    }

    /** Inserts into the left subtree of `node` and hangs the result back, before any rebalancing. */
    method InsertIntoLeft(node: int, hole: Hole, ghost t: Tree) returns (grew: bool, ghost l: Tree)
      requires t.Bin? && Mirrors(pool[..], node, t) && Sound(t) && hole !in Holes(t)
      requires Chained(pool[..], free, spare) && spare != [] && Members(spare) !! Nodes(t)
      modifies pool, this`free, this`spare
      ensures spare == old(spare)[1..] && Chained(pool[..], free, spare)
      ensures Mirrors(pool[..], node, t.(left := l)) && Inserted(t.left, hole, old(spare[0]), l, grew)
      ensures OnlyChanged(old(pool[..]), pool[..], Nodes(t) + Members(old(spare)))
      decreases t, 0
    {
      Follow(pool[..], node, t);
      ghost var m, changed := pool[..], Nodes(t.left) + Members(spare);
      var left;
      left, grew, l := InsertInternal(pool[node].left, hole, t.left);
      ghost var m' := pool[..];
      HungLeft(m, m', node, t, left, l, changed);
      pool[node] := pool[node].(left := left);
      ChainUnmoved(m', pool[..], free, spare, {node});
    }

    method InsertLeft(node: int, hole: Hole, ghost t: Tree) returns (top: int, grew: bool, ghost t': Tree)
      requires t.Bin? && Mirrors(pool[..], node, t) && Sound(t) && hole !in Holes(t) && Less(hole, t.hole)
      requires Chained(pool[..], free, spare) && spare != [] && Members(spare) !! Nodes(t)
      modifies pool, this`free, this`spare
      ensures spare == old(spare)[1..] && Chained(pool[..], free, spare)
      ensures Mirrors(pool[..], top, t') && Inserted(t, hole, old(spare[0]), t', grew)
      ensures OnlyChanged(old(pool[..]), pool[..], Nodes(t) + Members(old(spare)))
      decreases t, 1
    {
      ghost var l;
      grew, l := InsertIntoLeft(node, hole, t);
      InsertedLeft(t, hole, old(spare[0]), l, grew);
      top, t' := node, t.(left := l);
      if grew {
        ghost var m := pool[..];
        ghost var u := t';
        top, grew, t' := AbsorbLeftGrowth(node, u);
        InsertedAndRepaired(t, hole, old(spare[0]), u, t', grew);
        ChainUnmoved(m, pool[..], free, spare, Nodes(t) + {old(spare[0])});
      }
    }

    /** On a balanced tree the code's balance factor is the true one. */
    lemma RootBalance(n: int, t: Tree)
      requires t.Bin? && Mirrors(pool[..], n, t) && Balanced(t)
      ensures 0 <= n < pool.Length && IsRef(pool[..], pool[n].left) && IsRef(pool[..], pool[n].right)
      ensures BalanceFactor(n) == Lean(t)
    {
      Follow(pool[..], n, t);
      MirroredRoot(pool[..], pool[n].left, t.left);
      MirroredRoot(pool[..], pool[n].right, t.right);
      StoredIsTrue(t.left);
      StoredIsTrue(t.right);
    }

    /** After the left subtree of `node` shrank by one: rebalance, and tell whether the whole shrank. */
    method AbsorbLeftLoss(node: int, ghost u: Tree) returns (top: int, shrank: bool, ghost u': Tree)
      requires u.Bin? && Mirrors(pool[..], node, u) && Separate(u)
      requires Balanced(u.left) && Balanced(u.right) && 0 <= Lean(u) <= 2
      requires u.height == Height(u) + (if Lean(u) == 0 then 1 else 0)
      modifies pool
      ensures u'.Bin? && Mirrors(pool[..], top, u') && Balanced(u') && SameContent(u, u')
      ensures Height(u') == u.height - (if shrank then 1 else 0)
      ensures OnlyChanged(old(pool[..]), pool[..], Nodes(u))
    {
      Follow(pool[..], node, u);
      MirroredRoot(pool[..], pool[node].left, u.left);
      MirroredRoot(pool[..], pool[node].right, u.right);
      StoredIsTrue(u.left);
      StoredIsTrue(u.right);
      var balance := BalanceFactor(node);
      assert 0 <= balance <= 2;
      top, u' := node, u;
      if balance == 0 {
        shrank := true;
        ghost var m := pool[..];
        pool[node] := pool[node].(height := pool[node].height - 1);
        u' := u.(height := u.height - 1);
        Unmoved(m, pool[..], m[node].left, u.left, {node});
        Unmoved(m, pool[..], m[node].right, u.right, {node});
      } else if balance == 1 {
        shrank := false;
      } else {
        RaiseRightRepairs(u);
        top := RaiseRightAt(node, u);
        u' := RaiseRight(u);
        RootBalance(top, u');
        shrank := BalanceFactor(top) != -1;
      }
    }

    /** After the right subtree of `node` shrank by one: rebalance, and tell whether the whole shrank. */
    method AbsorbRightLoss(node: int, ghost u: Tree) returns (top: int, shrank: bool, ghost u': Tree)
      requires u.Bin? && Mirrors(pool[..], node, u) && Separate(u)
      requires Balanced(u.left) && Balanced(u.right) && -2 <= Lean(u) <= 0
      requires u.height == Height(u) + (if Lean(u) == 0 then 1 else 0)
      modifies pool
      ensures u'.Bin? && Mirrors(pool[..], top, u') && Balanced(u') && SameContent(u, u')
      ensures Height(u') == u.height - (if shrank then 1 else 0)
      ensures OnlyChanged(old(pool[..]), pool[..], Nodes(u))
    {
      Follow(pool[..], node, u);
      MirroredRoot(pool[..], pool[node].left, u.left);
      MirroredRoot(pool[..], pool[node].right, u.right);
      StoredIsTrue(u.left);
      StoredIsTrue(u.right);
      var balance := BalanceFactor(node);
      assert -2 <= balance <= 0;
      top, u' := node, u;
      if balance == 0 {
        shrank := true;
        ghost var m := pool[..];
        pool[node] := pool[node].(height := pool[node].height - 1);
        u' := u.(height := u.height - 1);
        Unmoved(m, pool[..], m[node].left, u.left, {node});
        Unmoved(m, pool[..], m[node].right, u.right, {node});
      } else if balance == -1 {
        shrank := false;
      } else {
        RaiseLeftRepairs(u);
        top := RaiseLeftAt(node, u);
        u' := RaiseLeft(u);
        RootBalance(top, u');
        shrank := BalanceFactor(top) != 1;
      }
    }

    /** The node holding the greatest hole of the left subtree. */
    method FindPredecessor(node: int, ghost t: Tree) returns (current: int)
      requires t.Bin? && t.left.Bin? && Mirrors(pool[..], node, t)
      ensures 0 <= current < pool.Length && Hole(pool[current].size, pool[current].addr) == LastHole(t.left)
    {
      Follow(pool[..], node, t);
      current := pool[node].left;
      ghost var s := t.left;
      Follow(pool[..], current, s);
      while pool[current].right != Null
        invariant s.Bin? && Mirrors(pool[..], current, s) && 0 <= current < pool.Length
        invariant LastHole(s) == LastHole(t.left)
        decreases s
      {
        Follow(pool[..], current, s);
        current := pool[current].right;
        s := s.right;
      }
      Follow(pool[..], current, s);
      MirroredRoot(pool[..], pool[current].right, s.right);
    }

    /** Removes from the left subtree of `node` and hangs the result back, before any rebalancing. */
    method RemoveIntoLeft(node: int, hole: Hole, ghost t: Tree)
      returns (shrank: bool, ghost l: Tree, ghost freed: int)
      requires t.Bin? && Mirrors(pool[..], node, t) && Separate(t) && Sound(t.left) && hole in Holes(t.left)
      requires Chained(pool[..], free, spare) && Members(spare) !! Nodes(t)
      modifies pool, this`free, this`spare
      ensures spare == [freed] + old(spare) && Chained(pool[..], free, spare)
      ensures Mirrors(pool[..], node, t.(left := l)) && Removed(t.left, hole, freed, l, shrank)
      ensures OnlyChanged(old(pool[..]), pool[..], Nodes(t) + Members(old(spare)))
      decreases Height(t), 0
    {
      Follow(pool[..], node, t);
      ghost var m, changed := pool[..], Nodes(t.left) + Members(spare);
      var left;
      left, shrank, l, freed := RemoveInternal(pool[node].left, hole, t.left);
      ghost var m' := pool[..];
      HungLeft(m, m', node, t, left, l, changed);
      pool[node] := pool[node].(left := left);
      ChainUnmoved(m', pool[..], free, spare, {node});
    }

    method RemoveLeft(node: int, hole: Hole, ghost t: Tree)
      returns (top: int, shrank: bool, ghost t': Tree, ghost freed: int)
      requires Mirrors(pool[..], node, t) && ReadyToLoseLeft(t, hole)
      requires Chained(pool[..], free, spare) && Members(spare) !! Nodes(t)
      modifies pool, this`free, this`spare
      ensures spare == [freed] + old(spare) && Chained(pool[..], free, spare) && freed in Nodes(t)
      ensures Mirrors(pool[..], top, t') && Sound(t')
      ensures Holes(t') == Holes(t.left) - {hole} + {t.hole} + Holes(t.right)
      ensures Nodes(t') == Nodes(t) - {freed}
      ensures Height(t') == Height(t) - (if shrank then 1 else 0)
      ensures OnlyChanged(old(pool[..]), pool[..], Nodes(t) + Members(old(spare)))
      decreases Height(t), 1
    {
      ghost var l;
      shrank, l, freed := RemoveIntoLeft(node, hole, t);
      RemovedLeft(t, hole, freed, l, shrank);
      top, t' := node, t.(left := l);
      if shrank {
        ghost var m := pool[..];
        top, shrank, t' := AbsorbLeftLoss(node, t');
        ChainUnmoved(m, pool[..], free, spare, Nodes(t) - {freed});
      }
    }

    /** Removes from the right subtree of `node` and hangs the result back, before any rebalancing. */
    method RemoveIntoRight(node: int, hole: Hole, ghost t: Tree)
      returns (shrank: bool, ghost r: Tree, ghost freed: int)
      requires t.Bin? && Mirrors(pool[..], node, t) && Separate(t) && Sound(t.right) && hole in Holes(t.right)
      requires Chained(pool[..], free, spare) && Members(spare) !! Nodes(t)
      modifies pool, this`free, this`spare
      ensures spare == [freed] + old(spare) && Chained(pool[..], free, spare)
      ensures Mirrors(pool[..], node, t.(right := r)) && Removed(t.right, hole, freed, r, shrank)
      ensures OnlyChanged(old(pool[..]), pool[..], Nodes(t) + Members(old(spare)))
      decreases Height(t), 0
    {
      Follow(pool[..], node, t);
      ghost var m, changed := pool[..], Nodes(t.right) + Members(spare);
      var right;
      right, shrank, r, freed := RemoveInternal(pool[node].right, hole, t.right);
      ghost var m' := pool[..];
      HungRight(m, m', node, t, right, r, changed);
      pool[node] := pool[node].(right := right);
      ChainUnmoved(m', pool[..], free, spare, {node});
    }

    method RemoveRight(node: int, hole: Hole, ghost t: Tree)
      returns (top: int, shrank: bool, ghost t': Tree, ghost freed: int)
      requires Mirrors(pool[..], node, t) && t.Bin? && Sound(t) && Less(t.hole, hole) && hole in Holes(t.right)
      requires Chained(pool[..], free, spare) && Members(spare) !! Nodes(t)
      modifies pool, this`free, this`spare
      ensures spare == [freed] + old(spare) && Chained(pool[..], free, spare) && freed in Nodes(t)
      ensures Mirrors(pool[..], top, t') && Sound(t')
      ensures Holes(t') == Holes(t) - {hole}
      ensures Nodes(t') == Nodes(t) - {freed}
      ensures Height(t') == Height(t) - (if shrank then 1 else 0)
      ensures OnlyChanged(old(pool[..]), pool[..], Nodes(t) + Members(old(spare)))
      decreases Height(t), 1
    {
      ghost var r;
      shrank, r, freed := RemoveIntoRight(node, hole, t);
      RemovedRight(t, hole, freed, r, shrank);
      top, t' := node, t.(right := r);
      if shrank {
        ghost var m := pool[..];
        top, shrank, t' := AbsorbRightLoss(node, t');
        ChainUnmoved(m, pool[..], free, spare, Nodes(t) - {freed});
      }
    }

    /** The node takes over the hole of its only child, which a balanced tree leaves childless, and the child goes. */
    method TakeOverChild(node: int, child: int, ghost t: Tree, ghost c: Tree)
      requires t.Bin? && Mirrors(pool[..], node, t) && t.height == 2
      requires c.Bin? && c.left.Leaf? && c.right.Leaf? && Mirrors(pool[..], child, c) && child != node
      requires Chained(pool[..], free, spare) && child !in spare && node !in spare
      modifies pool, this`free, this`spare
      ensures spare == [child] + old(spare) && Chained(pool[..], free, spare)
      ensures Mirrors(pool[..], node, Bin(node, Leaf, c.hole, 1, Leaf))
      ensures OnlyChanged(old(pool[..]), pool[..], {node, child} + Members(old(spare)))
    {
      pool[node] := pool[node].(size := pool[child].size, addr := pool[child].addr);
      ChainUnmoved(old(pool[..]), pool[..], free, spare, {node});
      PutFreeNode(child);
      ghost var m := pool[..];
      pool[node] := pool[node].(left := Null, right := Null, height := pool[node].height - 1);
      ChainUnmoved(m, pool[..], free, spare, {node});
    }

    /** Removes the hole of a node with at most one child. */
    method RemoveHere(node: int, hole: Hole, ghost t: Tree)
      returns (top: int, shrank: bool, ghost t': Tree, ghost freed: int)
      requires t.Bin? && Mirrors(pool[..], node, t) && Sound(t) && hole == t.hole
      requires t.left.Leaf? || t.right.Leaf?
      requires Chained(pool[..], free, spare) && Members(spare) !! Nodes(t)
      modifies pool, this`free, this`spare
      ensures spare == [freed] + old(spare) && Chained(pool[..], free, spare)
      ensures Mirrors(pool[..], top, t') && Removed(t, hole, freed, t', shrank)
      ensures OnlyChanged(old(pool[..]), pool[..], Nodes(t) + Members(old(spare)))
    {
      Follow(pool[..], node, t);
      OnlyChildIsLeaf(t);
      shrank := true;
      if pool[node].left == Null && pool[node].right == Null {
        PutFreeNode(node);
        top, t', freed := Null, Leaf, node;
      } else if pool[node].left == Null {
        freed, t' := pool[node].right, Bin(node, Leaf, t.right.hole, 1, Leaf);
        RemovedOnlyChild(t, t.right, t');
        top := node;
        Follow(pool[..], pool[node].right, t.right);
        TakeOverChild(node, pool[node].right, t, t.right);
      } else {
        freed, t' := pool[node].left, Bin(node, Leaf, t.left.hole, 1, Leaf);
        RemovedOnlyChild(t, t.left, t');
        top := node;
        Follow(pool[..], pool[node].left, t.left);
        TakeOverChild(node, pool[node].left, t, t.left);
      }
    }

    method RemoveInternal(node: int, hole: Hole, ghost t: Tree)
      returns (top: int, shrank: bool, ghost t': Tree, ghost freed: int)
      requires Mirrors(pool[..], node, t) && Sound(t) && hole in Holes(t)
      requires Chained(pool[..], free, spare) && Members(spare) !! Nodes(t)
      modifies pool, this`free, this`spare
      ensures spare == [freed] + old(spare) && Chained(pool[..], free, spare)
      ensures Mirrors(pool[..], top, t') && Removed(t, hole, freed, t', shrank)
      ensures OnlyChanged(old(pool[..]), pool[..], Nodes(t) + Members(old(spare)))
      decreases Height(t), 3
    {
      Follow(pool[..], node, t);
      var comparison := CompareHole(hole, Hole(pool[node].size, pool[node].addr));
      if comparison == 0 {
        if pool[node].left == Null || pool[node].right == Null {
          top, shrank, t', freed := RemoveHere(node, hole, t);
        } else {
          top, shrank, t', freed := RemoveThroughPredecessor(node, hole, t);
        }
      } else if comparison > 0 {
        top, shrank, t', freed := RemoveRight(node, hole, t);
      } else {
        assert hole != t.hole && hole !in Holes(t.right);
        top, shrank, t', freed := RemoveLeft(node, hole, t);
      }
    }

    /** With two children the node takes over its predecessor's hole, which is then removed from the left. */
    method RemoveThroughPredecessor(node: int, hole: Hole, ghost t: Tree)
      returns (top: int, shrank: bool, ghost t': Tree, ghost freed: int)
      requires t.Bin? && t.left.Bin? && t.right.Bin? && Mirrors(pool[..], node, t) && Sound(t) && hole == t.hole
      requires Chained(pool[..], free, spare) && Members(spare) !! Nodes(t)
      modifies pool, this`free, this`spare
      ensures spare == [freed] + old(spare) && Chained(pool[..], free, spare)
      ensures Mirrors(pool[..], top, t') && Removed(t, hole, freed, t', shrank)
      ensures OnlyChanged(old(pool[..]), pool[..], Nodes(t) + Members(old(spare)))
      decreases Height(t), 2
    {
      Follow(pool[..], node, t);
      PredecessorTakesOver(t);
      var predecessor := FindPredecessor(node, t);
      var last := Hole(pool[predecessor].size, pool[predecessor].addr);
      ghost var m := pool[..];
      pool[node] := pool[node].(size := last.size, addr := last.addr);
      Unmoved(m, pool[..], m[node].left, t.left, {node});
      Unmoved(m, pool[..], m[node].right, t.right, {node});
      ChainUnmoved(m, pool[..], free, spare, {node});
      top, shrank, t', freed := RemoveLeft(node, last, t.(hole := last));
    }

    function FindHoleFrom(node: int, ghost t: Tree, size: nat, alignment: nat): (found: Option<Hole>)
      requires Mirrors(pool[..], node, t) && Sound(t)
      reads pool
      ensures found == Search(t, size, alignment)
      decreases t
    {
      if node == Null then None
      else
        Follow(pool[..], node, t);
        var here := Hole(pool[node].size, pool[node].addr);
        if size > here.size || !Fits(here, size, alignment) then
          FindHoleFrom(pool[node].right, t.right, size, alignment)
        else
          var below := FindHoleFrom(pool[node].left, t.left, size, alignment);
          if below.Some? then below else Some(here)
    }

    lemma EachIsFound(size: nat, alignment: nat)
      requires Valid()
      ensures forall h :: FitsFrom(Index(), h, size, alignment) ==>
                var found := Search(tree, size, alignment);
                && found.Some?
                && (found.value.size < h.size || (found.value.size == h.size && found.value.addr <= h.addr))
    {
      forall h | FitsFrom(Index(), h, size, alignment)
        ensures var found := Search(tree, size, alignment);
                && found.Some?
                && (found.value.size < h.size || (found.value.size == h.size && found.value.addr <= h.addr))
      {
        SearchFindsFrom(tree, size, alignment, h);
      }
    }

    /** A hole for the request. Whatever is found fits once aligned; it comes no later than any hole from which on all
        fit, by size and then by address, and than any hole with room for every alignment. Without alignment it is the
        first hole that fits, and one is found whenever one fits. */
    function FindHole(size: nat, alignment: nat): (found: Option<Hole>)
      requires Valid()
      reads this, pool
      ensures found == Search(tree, size, alignment)
      ensures found.Some? ==>
                && found.value in Index()
                && found.value.size >= size + (Align(found.value.addr, alignment) - found.value.addr)
      ensures forall h :: FitsFrom(Index(), h, size, alignment) ==>
                && found.Some?
                && (found.value.size < h.size || (found.value.size == h.size && found.value.addr <= h.addr))
      ensures forall h :: h in Index() && Roomy(h, size, alignment) ==>
                found.Some? && (found.value == h || Less(found.value, h))
      ensures alignment == 0 && found.None? ==> forall h :: h in Index() ==> h.size < size
      ensures alignment == 0 && found.Some? ==>
                forall h :: h in Index() && h.size >= size ==>
                  found.value.size < h.size || (found.value.size == h.size && found.value.addr <= h.addr)
    {
      SearchFinds(tree, size, alignment);
      EachIsFound(size, alignment);
      FindHoleFrom(root, tree, size, alignment)
    }

    method Insert(size: nat, addr: nat)
      requires Valid() && Hole(size, addr) !in Index() && spare != []
      modifies this, pool
      ensures Valid() && Index() == old(Index()) + {Hole(size, addr)}
      ensures |spare| == |old(spare)| - 1
    {
      var top, grew;
      ghost var t;
      top, grew, t := InsertInternal(root, Hole(size, addr), tree);
      root, tree := top, t;
    }

    method Remove(size: nat, addr: nat)
      requires Valid() && Hole(size, addr) in Index()
      modifies this, pool
      ensures Valid() && Index() == old(Index()) - {Hole(size, addr)}
      ensures |spare| == |old(spare)| + 1
    {
      var top, shrank;
      ghost var t, freed;
      top, shrank, t, freed := RemoveInternal(root, Hole(size, addr), tree);
      root, tree := top, t;
    }
  }
}

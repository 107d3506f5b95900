/** The kernel's allocation calls (src/alloc/kalloc.c), over the heap. */
module Kalloc {
  import opened Alignment
  import opened AllocatorLaws
  import opened HoleSearch
  import opened HoleTree
  import opened KallocAvl
  import opened KallocHeap
  import opened Ram
  import opened Segments
  import opened SegmentOps
  import opened Wrappers

  /** Whoever writes within a live block damages neither the heap's tags nor any other block. */
  lemma ClientWritesAreSafe(m: Bytes, m': Bytes, segs: seq<Segment>, i: nat, lo: nat, hi: nat)
    requires Sane(m, segs, lo, hi) && i < |segs| && Changed(m, m', UserAddr(segs[i]), FooterAddr(segs[i]))
    ensures Sane(m', segs, lo, hi) && OthersKept(m, m', segs, segs[i])
  {
    SaneAt(m, segs, i, lo, hi);
    TagsAgree(m, m', segs[i]);
    Around(segs, i, i + 1);
    assert segs[i..i + 1] == [segs[i]];
    RewrittenLayout(m, m', segs, i, i + 1, [segs[i]], lo, hi);
    forall s | s in segs && s.used && s != segs[i] ensures Agree(m, m', UserAddr(s), FooterAddr(s)) {
      assert s in segs[..i] || s in segs[i + 1..];
    }
  }

  /** As no two holes touch, there is at most one hole more than there are live blocks. */
  lemma {:induction false} HolesAreNoMoreThanBlocks(segs: seq<Segment>, lo: nat, hi: nat)
    requires Tiles(segs, lo, hi) && NoTwins(segs)
    ensures |HolesOf(segs)| <= |Live(segs)| + if segs != [] && segs[0].used then 0 else 1
    decreases |segs|
  {
    if segs != [] {
      HolesAreNoMoreThanBlocks(segs[1..], End(segs[0]), hi);
      FirstIsLiveOnce(segs, lo, hi);
    }
  }

  lemma FirstIsLiveOnce(segs: seq<Segment>, lo: nat, hi: nat)
    requires Tiles(segs, lo, hi) && segs != []
    ensures |Live(segs)| == |Live(segs[1..])| + if segs[0].used then 1 else 0
  {
    var first, rest := segs[0], segs[1..];
    assert segs == [first] + rest;
    LiveJoin([first], rest);
    if first.used {
      assert Live([first]) == {UserAddr(first)} by {
        assert first in [first];
      }
      forall s | s in rest && s.used ensures UserAddr(s) != UserAddr(first) {
        var k :| 0 <= k < |rest| && rest[k] == s;
        InOrder(segs, 0, k + 1, lo, hi);
      }
    } else {
      assert Live([first]) == {};
    }
  }

  /** The pool of index cells cannot run dry while fewer blocks are live than it has cells, less one. */
  lemma SpareWhileFewBlocks(heap: Heap)
    requires heap.Valid() && |Live(heap.segs)| + 1 < heap.avl.pool.Length
    ensures heap.avl.spare != []
  {
    HolesAreNoMoreThanBlocks(heap.segs, heap.initialAddr, heap.initialAddr + heap.size);
    heap.avl.PoolIsPartitioned();
  }

  /** While the first segment is a block no allocation is refused, whatever its alignment. */
  lemma FirstBlockPreventsRefusal(segs: seq<Segment>, request: nat, alignment: nat, grownBy: nat, i: nat, gap: nat,
                                  r: Outcome, segs': seq<Segment>)
    requires segs != [] && segs[0].used && Allocated(segs, request, alignment, grownBy, i, gap, r, segs')
    ensures r.Given? && segs' != [] && segs'[0].used
  {
    if grownBy > 0 {
      GrowthIsTrailing(segs, grownBy);
    }
    var grown := Grown(segs, grownBy);
    assert grown[0].used && i > 0;
  }

  /** A fresh heap has room for a byte, at the start of its one hole. */
  lemma FreshHeapServes(heap: Heap)
    requires heap.Valid() && heap.size > TagsSize
    requires heap.segs == [Segment(heap.initialAddr, heap.size - TagsSize, false)]
    ensures heap.avl.FindHole(1, 0).Some?
  {
    var s := heap.segs[0];
    InHolesOf(heap.segs, HoleOf(s));
    RoomyFits(HoleOf(s), 1, 0);
  }

  /** One hole stays one hole however much the heap grows. */
  lemma OneHoleGrown(segs: seq<Segment>, n: nat)
    requires |segs| == 1 && !segs[0].used
    ensures |Grown(segs, n)| == 1 && Grown(segs, n)[0].addr == segs[0].addr
  {
    if n > 0 {
      GrowthIsTrailing(segs, n);
      assert segs[..0] == [];
    }
  }

  /** Before its first allocation the heap refuses every request with a power-of-two alignment above 4, and serves those
      up to 4, however much it grows for them: its one hole starts 12 bytes after a page boundary, with no block before
      it to take up the padding. */
  lemma FreshHeapRefuses(segs: seq<Segment>, request: nat, alignment: nat, grownBy: nat, i: nat, index: Tree, lo: nat,
                         r: Outcome)
    requires |segs| == 1 && segs[0].addr == lo && !segs[0].used && lo % 4096 == 0 && PowerOfTwo(alignment)
    requires Decided(index, Grown(segs, grownBy), i, request, alignment, lo, r)
    ensures r.Halted? <==> alignment > 4
  {
    OneHoleGrown(segs, grownBy);
    RefusedAboveFour(HoleOf(Grown(segs, grownBy)[0]), alignment, lo);
  }

  /** Index and request determine the hole that serves, and with it whether the request is refused. */
  lemma ChoiceIsDetermined(index: Tree, segs: seq<Segment>, i: nat, j: nat, request: nat, alignment: nat, lo: nat,
                           hi: nat, r: Outcome, r': Outcome)
    requires Tiles(segs, lo, hi)
    requires Decided(index, segs, i, request, alignment, lo, r)
    requires Decided(index, segs, j, request, alignment, lo, r')
    ensures i == j && (r.Halted? <==> r'.Halted?)
  {
    if i < j {
      InOrder(segs, i, j, lo, hi);
    } else if j < i {
      InOrder(segs, j, i, lo, hi);
    }
  }

  lemma RefusedAboveFour(hole: Hole, alignment: nat, lo: nat)
    requires lo % 4096 == 0 && hole.addr == lo + HeaderSize && PowerOfTwo(alignment)
    ensures Refused(hole, lo, alignment) <==> alignment > 4
  {
    var k: nat :| alignment == Pow2(k);
    DivisionIs(hole.addr, 8, 512 * (lo / 4096) + 1, 4);
    MultipleOfFourOnly(hole.addr, k);
  }

  lemma ServedIsFirst(segs: seq<Segment>, i: nat, gap: nat, r: Outcome, segs': seq<Segment>)
    requires |segs| == 1 && Allocated(segs, 1, 0, 0, i, gap, r, segs')
    ensures r.Given? && i == 0 && Grown(segs, 0) == segs
  {
    UnalignedIsBestFit(segs, i, gap, 1);
  }

  /** The heap after start-up: one byte is allocated and never released, so the first segment is a block. */
  method Init(ram: array<int>, addr: nat, initialPages: nat) returns (heap: Heap)
    requires addr % 4096 == 0 && initialPages > 0
    requires addr + PageBytes(AvlPages + initialPages) <= ram.Length <= WordLimit
    modifies ram
    ensures heap.Valid() && heap.ram == ram && heap.segs[0].used && Live(heap.segs) == {UserAddr(heap.segs[0])}
    ensures heap.segs[0].size == 1 && heap.avl.pool.Length == 65536 / 20
  {
    heap := new Heap(ram, addr, initialPages);
    ghost var whole, top := heap.segs, heap.initialAddr + heap.size;
    FreshHeapServes(heap);
    var r;
    ghost var grownBy, i, gap, index;
    r, grownBy, i, gap, index := heap.Alloc(1, 0);
    ServedIsFirst(whole, i, gap, r, heap.segs);
    AllocationIsSound(whole, 1, 0, grownBy, i, gap, r, heap.segs, heap.initialAddr, top);
    assert Live(whole) == {};
  }

  /** `count` bytes at `dst` in `m'` are those at `src` in `m`. */
  ghost predicate SameBytes(m: Bytes, src: nat, m': Bytes, dst: nat, count: nat) {
    && src + count <= |m| && dst + count <= |m'|
    && (forall a {:trigger m'[a]} :: dst <= a < dst + count ==> m'[a] == m[a - dst + src])
  }

  method CopyMemory(ram: array<int>, dst: nat, src: nat, count: nat)
    requires dst + count <= ram.Length && src + count <= ram.Length
    requires src + count <= dst || dst + count <= src
    modifies ram
    ensures Changed(old(ram[..]), ram[..], dst, dst + count) && SameBytes(old(ram[..]), src, ram[..], dst, count)
  {
    ghost var m := ram[..];
    for k := 0 to count
      invariant Changed(m, ram[..], dst, dst + k) && SameBytes(m, src, ram[..], dst, k)
    {
      assert ram[..][src + k] == m[src + k];
      ram[dst + k] := ram[src + k];
    }
  }

  lemma PayloadIsInside(m: Bytes, segs: seq<Segment>, d: nat, lo: nat, hi: nat)
    requires Sane(m, segs, lo, hi) && d < |segs|
    ensures FooterAddr(segs[d]) <= hi
  {
    SaneAt(m, segs, d, lo, hi);
  }

  lemma CopyIsSafe(m: Bytes, m': Bytes, segs: seq<Segment>, d: nat, count: nat, lo: nat, hi: nat)
    requires Sane(m, segs, lo, hi) && d < |segs| && count <= segs[d].size
    requires Changed(m, m', UserAddr(segs[d]), UserAddr(segs[d]) + count)
    ensures Sane(m', segs, lo, hi) && OthersKept(m, m', segs, segs[d])
  {
    assert Changed(m, m', UserAddr(segs[d]), FooterAddr(segs[d]));
    ClientWritesAreSafe(m, m', segs, d, lo, hi);
  }

  /** Copies into a live block, from bytes outside it. */
  method CopyBytes(heap: Heap, dst: nat, src: nat, count: nat, ghost d: nat)
    requires heap.Run() && d < |heap.segs| && dst == UserAddr(heap.segs[d]) && count <= heap.segs[d].size
    requires src + count <= dst || FooterAddr(heap.segs[d]) <= src
    requires src + count <= heap.ram.Length
    modifies heap.ram
    ensures heap.Run() && OthersKept(old(heap.ram[..]), heap.ram[..], heap.segs, heap.segs[d])
    ensures SameBytes(old(heap.ram[..]), src, heap.ram[..], dst, count)
  {
    ghost var m := heap.ram[..];
    PayloadIsInside(m, heap.segs, d, heap.initialAddr, heap.initialAddr + heap.size);
    CopyMemory(heap.ram, dst, src, count);
    CopyIsSafe(m, heap.ram[..], heap.segs, d, count, heap.initialAddr, heap.initialAddr + heap.size);
  }

  /** What reallocation keeps of the other blocks: they stay where they are, no smaller, with their bytes. */
  ghost predicate BystandersKept(m: Bytes, m': Bytes, segs: seq<Segment>, segs': seq<Segment>, moved: Segment) {
    |m'| == |m| &&
    forall s :: s in segs && s.used && s != moved ==> Kept(s, segs') && Agree(m, m', UserAddr(s), FooterAddr(s))
  }

  /** Through the three steps of a reallocation: the new block is taken, filled, and the old one released. */
  lemma Bystanders(m0: Bytes, m1: Bytes, m2: Bytes, m3: Bytes, segs: seq<Segment>, segs1: seq<Segment>,
                   moved: Segment, at: nat, k: nat, lo: nat, hi: nat, top: nat)
    requires Tiles(segs, lo, hi) && moved in segs && moved.used
    requires Tiles(segs1, lo, top) && NoTwins(segs1) && at < |segs1| && k < |segs1| && segs1[k].used
    requires BlocksKept(segs, segs1) && UserAddr(segs1[at]) !in Live(segs) && segs1[k].addr == moved.addr
    requires PayloadsKept(m0, m1, segs) && OthersKept(m1, m2, segs1, segs1[at]) && OthersKept(m2, m3, segs1, segs1[k])
    ensures BystandersKept(m0, m3, segs, Freed(segs1, k), moved)
  {
    forall s | s in segs && s.used && s != moved
      ensures Kept(s, Freed(segs1, k)) && Agree(m0, m3, UserAddr(s), FooterAddr(s))
    {
      Bystander(m0, m1, m2, m3, segs, segs1, moved, s, at, k, lo, hi, top);
    }
  }

  lemma Bystander(m0: Bytes, m1: Bytes, m2: Bytes, m3: Bytes, segs: seq<Segment>, segs1: seq<Segment>, moved: Segment,
                  s: Segment, at: nat, k: nat, lo: nat, hi: nat, top: nat)
    requires Tiles(segs, lo, hi) && moved in segs && moved.used && s in segs && s.used && s != moved
    requires Tiles(segs1, lo, top) && NoTwins(segs1) && at < |segs1| && k < |segs1| && segs1[k].used
    requires BlocksKept(segs, segs1) && UserAddr(segs1[at]) !in Live(segs) && segs1[k].addr == moved.addr
    requires PayloadsKept(m0, m1, segs) && OthersKept(m1, m2, segs1, segs1[at]) && OthersKept(m2, m3, segs1, segs1[k])
    ensures Kept(s, Freed(segs1, k)) && Agree(m0, m3, UserAddr(s), FooterAddr(s))
  {
    LiveBlocksApart(segs, lo, hi, s, moved);
    var n :| 0 <= n < |segs1| && Covers(segs1[n], s);
    assert UserAddr(s) in Live(segs);
    assert segs1[n] in segs1 && segs1[n] != segs1[k] && segs1[n] != segs1[at];
    assert Agree(m0, m3, UserAddr(s), FooterAddr(s));
    ReleaseIsSound(segs1, k, lo, top);
    KeptAs(s, Freed(segs1, k), segs1[n]);
  }

  /** Where the block to be moved lies once the new one is taken. */
  lemma StillThere(segs: seq<Segment>, segs1: seq<Segment>, i: nat, at: nat, lo: nat, top: nat) returns (k: nat)
    requires i < |segs| && segs[i].used && BlocksKept(segs, segs1) && Tiles(segs1, lo, top) && at < |segs1|
    requires UserAddr(segs1[at]) !in Live(segs) && Live(segs1) == Live(segs) + {UserAddr(segs1[at])}
    ensures k < |segs1| && Covers(segs1[k], segs[i]) && segs1[k] != segs1[at]
    ensures FooterAddr(segs1[k]) <= UserAddr(segs1[at]) || FooterAddr(segs1[at]) <= UserAddr(segs1[k])
    ensures |Live(segs1)| == |Live(segs)| + 1
  {
    assert segs[i] in segs && UserAddr(segs[i]) in Live(segs);
    k :| 0 <= k < |segs1| && Covers(segs1[k], segs[i]);
    LiveBlocksApart(segs1, lo, top, segs1[k], segs1[at]);
  }

  /** The copied bytes survive the release of the original. */
  lemma CopySurvives(m0: Bytes, m1: Bytes, m2: Bytes, m3: Bytes, segs: seq<Segment>, i: nat, segs1: seq<Segment>,
                     at: nat, k: nat, count: nat)
    requires i < |segs| && segs[i].used && at < |segs1| && k < |segs1| && segs1[at].used && segs1[at] != segs1[k]
    requires PayloadsKept(m0, m1, segs) && OthersKept(m2, m3, segs1, segs1[k]) && |m2| == |m1|
    requires count <= segs[i].size && count <= segs1[at].size
    requires SameBytes(m1, UserAddr(segs[i]), m2, UserAddr(segs1[at]), count)
    ensures SameBytes(m0, UserAddr(segs[i]), m3, UserAddr(segs1[at]), count)
  {
    var dst, src := UserAddr(segs1[at]), UserAddr(segs[i]);
    assert segs[i] in segs && segs1[at] in segs1;
    forall a | dst <= a < dst + count ensures m3[a] == m0[a - dst + src] {
      assert m1[a - dst + src] == m0[a - dst + src];
    }
  }

  /** The three steps together. */
  lemma MovedIsSound(m0: Bytes, m1: Bytes, m2: Bytes, m3: Bytes, segs: seq<Segment>, segs1: seq<Segment>, i: nat,
                     at: nat, k: nat, lo: nat, hi: nat, top: nat, count: nat)
    requires Tiles(segs, lo, hi) && i < |segs| && segs[i].used && count <= segs[i].size
    requires Tiles(segs1, lo, top) && NoTwins(segs1) && at < |segs1| && segs1[at].used && count <= segs1[at].size
    requires k < |segs1| && Covers(segs1[k], segs[i]) && segs1[k] != segs1[at]
    requires BlocksKept(segs, segs1) && UserAddr(segs1[at]) !in Live(segs)
    requires Live(segs1) == Live(segs) + {UserAddr(segs1[at])}
    requires PayloadsKept(m0, m1, segs) && OthersKept(m1, m2, segs1, segs1[at]) && OthersKept(m2, m3, segs1, segs1[k])
    requires SameBytes(m1, UserAddr(segs[i]), m2, UserAddr(segs1[at]), count)
    ensures Live(Freed(segs1, k)) == Live(segs) + {UserAddr(segs1[at])} - {UserAddr(segs[i])}
    ensures SameBytes(m0, UserAddr(segs[i]), m3, UserAddr(segs1[at]), count)
    ensures BystandersKept(m0, m3, segs, Freed(segs1, k), segs[i])
  {
    ReleaseIsSound(segs1, k, lo, top);
    CopySurvives(m0, m1, m2, m3, segs, i, segs1, at, k, count);
    Bystanders(m0, m1, m2, m3, segs, segs1, segs[i], at, k, lo, hi, top);
  }

  lemma HeapIsARun(heap: Heap) returns (segs: seq<Segment>, m: Bytes, lo: nat, hi: nat)
    requires heap.Valid()
    ensures segs == heap.segs && m == heap.ram[..] && Tiles(segs, lo, hi) && NoTwins(segs) && lo == heap.initialAddr
    ensures segs != []
  {
    segs, m, lo, hi := heap.segs, heap.ram[..], heap.initialAddr, heap.initialAddr + heap.size;
  }

  lemma UnalignedMeans(segs: seq<Segment>, request: nat, grownBy: nat, i: nat, gap: nat, r: Outcome,
                       segs': seq<Segment>, lo: nat, hi: nat)
    requires Tiles(segs, lo, hi) && NoTwins(segs) && segs != []
    requires Allocated(segs, request, 0, grownBy, i, gap, r, segs')
    ensures r.Given? && i < |segs'| && segs'[i].used && UserAddr(segs'[i]) == r.ptr && request <= segs'[i].size
    ensures r.ptr !in Live(segs) && Live(segs') == Live(segs) + {r.ptr} && BlocksKept(segs, segs')
  {
    UnalignedIsBestFit(Grown(segs, grownBy), i, gap, request);
    AllocationIsSound(segs, request, 0, grownBy, i, gap, r, segs', lo, hi);
    AllocationKeepsBlocks(segs, request, 0, grownBy, i, gap, r, segs');
  }

  /** An unaligned allocation, by what it means for its caller. It is never refused. */
  method AllocUnaligned(heap: Heap, request: nat) returns (ptr: nat, ghost at: nat)
    requires heap.Valid() && (heap.avl.FindHole(request, 0).Some? || heap.CanGrowFor(request, 0))
    modifies heap`size, heap`pages, heap`segs, heap`mapped, heap.ram, heap.avl, heap.avl.pool
    ensures heap.Valid() && at < |heap.segs| && heap.segs[at].used && UserAddr(heap.segs[at]) == ptr
    ensures request <= heap.segs[at].size
    ensures ptr !in Live(old(heap.segs)) && Live(heap.segs) == Live(old(heap.segs)) + {ptr}
    ensures BlocksKept(old(heap.segs), heap.segs)
    ensures PayloadsKept(old(heap.ram[..]), heap.ram[..], old(heap.segs))
  {
    ghost var segs, m, lo, hi := HeapIsARun(heap);
    var r;
    ghost var grownBy, gap, index;
    r, grownBy, at, gap, index := heap.Alloc(request, 0);
    UnalignedMeans(segs, request, grownBy, at, gap, r, heap.segs, lo, hi);
    ptr := r.ptr;
  }

  /** A live block at the address, of at least this size. */
  ghost predicate HasBlock(segs: seq<Segment>, ptr: nat, size: nat) {
    exists k :: 0 <= k < |segs| && segs[k].used && UserAddr(segs[k]) == ptr && segs[k].size >= size
  }

  lemma NewBlockStays(segs: seq<Segment>, at: nat, k: nat, size: nat, lo: nat, hi: nat)
    requires Tiles(segs, lo, hi) && NoTwins(segs) && at < |segs| && k < |segs| && segs[at].used && segs[k].used
    requires segs[at] != segs[k] && segs[at].size >= size
    ensures HasBlock(Freed(segs, k), UserAddr(segs[at]), size)
  {
    ReleaseIsSound(segs, k, lo, hi);
    var out := Freed(segs, k);
    assert segs[at] in out;
    var n :| 0 <= n < |out| && out[n] == segs[at];
  }

  /** Takes a larger block, copies the bytes, and releases the old one. */
  method Move(heap: Heap, ptr: nat, oldSize: nat, newSize: nat, ghost i: nat) returns (mem: nat)
    requires heap.Valid() && i < |heap.segs| && heap.segs[i].used && ptr == UserAddr(heap.segs[i])
    requires oldSize <= heap.segs[i].size && oldSize <= newSize
    requires heap.avl.FindHole(newSize, 0).Some? || heap.CanGrowFor(newSize, 0)
    requires |Live(heap.segs)| + 2 < heap.avl.pool.Length
    modifies heap`size, heap`pages, heap`segs, heap`mapped, heap.ram, heap.avl, heap.avl.pool
    ensures heap.Valid() && HasBlock(heap.segs, mem, newSize)
    ensures mem !in Live(old(heap.segs)) && Live(heap.segs) == Live(old(heap.segs)) + {mem} - {ptr}
    ensures SameBytes(old(heap.ram[..]), ptr, heap.ram[..], mem, oldSize)
    ensures BystandersKept(old(heap.ram[..]), heap.ram[..], old(heap.segs), heap.segs, old(heap.segs)[i])
  {
    ghost var segs, m0, lo, hi := HeapIsARun(heap);
    ghost var at;
    mem, at := AllocUnaligned(heap, newSize);
    ghost var segs1, m1, lo1, top := HeapIsARun(heap);
    ghost var k := StillThere(segs, segs1, i, at, lo, top);
    ghost var m2 := CopyAndFree(heap, mem, ptr, oldSize, at, k);
    assert mem == UserAddr(segs1[at]) && ptr == UserAddr(segs[i]) && heap.segs == Freed(segs1, k);
    NewBlockStays(segs1, at, k, newSize, lo1, top);
    MovedIsSound(m0, m1, m2, heap.ram[..], segs, segs1, i, at, k, lo, hi, top, oldSize);
  }

  /** Copies from one live block to another and releases the first; `m` is the memory in between. */
  method CopyAndFree(heap: Heap, mem: nat, ptr: nat, count: nat, ghost at: nat, ghost k: nat) returns (ghost m: Bytes)
    requires heap.Valid() && at < |heap.segs| && k < |heap.segs| && heap.segs[k].used
    requires mem == UserAddr(heap.segs[at]) && ptr == UserAddr(heap.segs[k])
    requires FooterAddr(heap.segs[k]) <= mem || FooterAddr(heap.segs[at]) <= ptr
    requires count <= heap.segs[at].size && count <= heap.segs[k].size
    requires |Live(heap.segs)| + 1 < heap.avl.pool.Length
    modifies heap`segs, heap.ram, heap.avl, heap.avl.pool
    ensures heap.Valid() && heap.segs == Freed(old(heap.segs), k)
    ensures OthersKept(old(heap.ram[..]), m, old(heap.segs), old(heap.segs)[at])
    ensures SameBytes(old(heap.ram[..]), ptr, m, mem, count)
    ensures OthersKept(m, heap.ram[..], old(heap.segs), old(heap.segs)[k])
  {
    PayloadIsInside(heap.ram[..], heap.segs, k, heap.initialAddr, heap.initialAddr + heap.size);
    CopyBytes(heap, mem, ptr, count, at);
    m := heap.ram[..];
    SpareWhileFewBlocks(heap);
    heap.Free(ptr, k);
  }

  /** Moves a block to one of at least the new size: its bytes come along, its old address is free again, and no other
      block notices. A block that is large enough stays. */
  method Realloc(heap: Heap, ptr: nat, oldSize: nat, newSize: nat, ghost i: nat) returns (r: Outcome)
    requires heap.Valid() && i < |heap.segs| && heap.segs[i].used && ptr == UserAddr(heap.segs[i])
    requires oldSize <= heap.segs[i].size
    requires newSize > oldSize ==>
               && (heap.avl.FindHole(newSize, 0).Some? || heap.CanGrowFor(newSize, 0))
               && |Live(heap.segs)| + 2 < heap.avl.pool.Length
    modifies heap`size, heap`pages, heap`segs, heap`mapped, heap.ram, heap.avl, heap.avl.pool
    ensures heap.Valid() && r.Given? && HasBlock(heap.segs, r.ptr, newSize)
    ensures newSize <= oldSize ==> r.ptr == ptr && heap.segs == old(heap.segs) && heap.ram[..] == old(heap.ram[..])
    ensures newSize > oldSize ==>
              && r.ptr !in Live(old(heap.segs)) && Live(heap.segs) == Live(old(heap.segs)) + {r.ptr} - {ptr}
              && SameBytes(old(heap.ram[..]), ptr, heap.ram[..], r.ptr, oldSize)
              && BystandersKept(old(heap.ram[..]), heap.ram[..], old(heap.segs), heap.segs, old(heap.segs)[i])
  {
    if newSize <= oldSize {
      return Given(ptr);
    }
    var mem := Move(heap, ptr, oldSize, newSize, i);
    r := Given(mem);
  }
}

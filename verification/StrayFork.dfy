/** A fork that is not safe although frames are free (src/process.c, src/paging.c): boot, the heap, the first process,
    and the allocations of a clone that take the heap into the kernel's next table. */
module StrayFork {
  import opened Alignment
  import AllocatorLaws
  import HoleTree
  import KallocHeap
  import SegmentOps
  import opened Segments
  import opened PageTables
  import opened KernelGrowth
  import opened Cloning
  import opened Forking
  import opened HeapSupply
  import opened Boot

  /* A heap with one hole, at its end. */

  predicate AllUsed(blocks: seq<Segment>) {
    blocks != [] && forall s :: s in blocks ==> s.used
  }

  /** Blocks, and behind them a hole from `at` to `top`. */
  function Tail(blocks: seq<Segment>, at: nat, top: nat): seq<Segment>
    requires at + 20 <= top
  {
    blocks + [Segment(at, top - at - 20, false)]
  }

  function TailRun(blocks: seq<Segment>, at: nat, top: nat): HeapRun
    requires at + 20 <= top
  {
    HeapRun(Tail(blocks, at, top), top)
  }

  lemma OnlyHole(blocks: seq<Segment>, at: nat, top: nat, h: HoleTree.Hole)
    requires AllUsed(blocks) && at + 20 <= top
    ensures h in HolesOf(Tail(blocks, at, top)) <==> h == HoleTree.Hole(top - at - 20, at + 12)
  {
    var segs, s := Tail(blocks, at, top), Segment(at, top - at - 20, false);
    InHolesOf(segs, h);
    assert s in segs && forall x :: x in segs <==> x in blocks || x == s;
  }

  /** The blocks once the hole behind them has served a request `gap` bytes after its start. */
  function BlocksAfter(blocks: seq<Segment>, at: nat, gap: nat, request: nat): (after: seq<Segment>)
    requires AllUsed(blocks)
    ensures AllUsed(after)
  {
    var n := |blocks| - 1;
    (if gap == 0 then blocks else blocks[..n] + [blocks[n].(size := blocks[n].size + gap)])
    + [Segment(at + gap, request, true)]
  }

  lemma ServedFromTail(blocks: seq<Segment>, at: nat, top: nat, gap: nat, request: nat, next: nat)
    requires AllUsed(blocks) && next == at + gap + 20 + request && next + 20 < top
    ensures SegmentOps.Served(Tail(blocks, at, top), |blocks|, gap, request)
            == Tail(BlocksAfter(blocks, at, gap, request), next, top)
  {
    var n, segs, size := |blocks|, Tail(blocks, at, top), top - at - 20;
    var shifted := SegmentOps.Shifted(segs, n, gap);
    assert segs[..n - 1] == blocks[..n - 1] && segs[n + 1..] == [];
    if gap > 0 {
      assert shifted == blocks[..n - 1] + [blocks[n - 1].(size := blocks[n - 1].size + gap)]
                        + [Segment(at + gap, size - gap, false)];
    }
    assert shifted[n] == Segment(at + gap, size - gap, false);
    assert shifted[..n] + [Segment(at + gap, request, true)] == BlocksAfter(blocks, at, gap, request);
  }

  lemma GrownTail(blocks: seq<Segment>, at: nat, top: nat, grownBy: nat, end: nat)
    requires at + 20 <= top && grownBy > 0 && end == top + PageBytes(grownBy)
    ensures SegmentOps.Grown(Tail(blocks, at, top), grownBy) == Tail(blocks, at, end)
  {
    AllocatorLaws.GrowthIsTrailing(Tail(blocks, at, top), grownBy);
    assert Tail(blocks, at, top)[..|blocks|] == blocks;
  }

  lemma TailIsChosen(blocks: seq<Segment>, at: nat, top: nat, request: nat, gap: nat)
    requires AllUsed(blocks) && at + 12 + gap == Align(at + 12, 0x1000) && at + gap + request + 20 <= top
    ensures KallocHeap.Chosen(Tail(blocks, at, top), |blocks|, gap, request, 0x1000)
  {
    var segs := Tail(blocks, at, top);
    assert segs[|blocks|] == Segment(at, top - at - 20, false);
    forall h | h in HolesOf(segs) ensures HoleOf(segs[|blocks|]) == h {
      OnlyHole(blocks, at, top, h);
    }
  }

  lemma ChosenIsHanded(a: HeapRun, grown: seq<Segment>, request: nat, grownBy: nat, i: nat, gap: nat, supply: Supply,
                       b: HeapRun)
    requires a.segs != [] && SegmentOps.Grown(a.segs, grownBy) == grown && 0 < i
    requires KallocHeap.Chosen(grown, i, gap, request, 0x1000) && supply.address == UserAddr(grown[i]) + gap
    requires b.segs == SegmentOps.Served(grown, i, gap, request) && b.top == a.top + PageBytes(grownBy)
    requires supply.pages == PagesBetween(a.top, b.top)
    ensures HandsOut(a, request, 0x1000, supply, b)
  {
    AllocationHandsOut(a, request, 0x1000, grownBy, i, gap, supply, b);
  }

  /** An aligned request served from the end of the heap, which grows for it. */
  lemma TakesTail(blocks: seq<Segment>, at: nat, top: nat, request: nat, gap: nat, grownBy: nat, next: nat, end: nat,
                  supply: Supply) returns (after: seq<Segment>)
    requires AllUsed(blocks) && at + 20 <= top && grownBy > 0 && at + 12 + gap == Align(at + 12, 0x1000)
    requires next == at + gap + 20 + request && end == top + PageBytes(grownBy) && next + 20 < end
    requires supply == Supply(at + 12 + gap, PagesBetween(top, end))
    ensures AllUsed(after) && HandsOut(TailRun(blocks, at, top), request, 0x1000, supply, TailRun(after, next, end))
  {
    after := BlocksAfter(blocks, at, gap, request);
    var grown := Tail(blocks, at, end);
    assert grown[|blocks|].addr == at;
    GrownTail(blocks, at, top, grownBy, end);
    TailIsChosen(blocks, at, end, request, gap);
    ServedFromTail(blocks, at, end, gap, request, next);
    ChosenIsHanded(TailRun(blocks, at, top), grown, request, grownBy, |blocks|, gap, supply, TailRun(after, next, end));
  }

  lemma AlignsTo(addr: nat, to: nat)
    requires to % 4096 == 0 && to < addr + 4096 && addr <= to
    ensures Align(addr, 0x1000) == to
  {
    PageAlignment();
    assert to == 0x1000 * (to / 4096);
    AlignIsLeast(addr, 0x1000, to / 4096);
    AlignIsAligned(addr, 0x1000);
    AlignBounds(addr, 0x1000);
  }

  /* The heap when the first process forks. */

  /** The first blocks, the directory and the tables of the first process, what was allocated since. */
  function FirstBlocks(): seq<Segment> {
    [Segment(0x51_0000, 0xFFE0, true), Segment(0x51_FFF4, 0x2FEC, true), Segment(0x52_2FF4, 0x1FEC, true),
     Segment(0x52_4FF4, 0x1FEC, true), Segment(0x52_6FF4, 0x1000, true), Segment(0x52_8008, 0x2D_6FD8, true)]
  }

  /** A hole of almost a page is left before 8 MB, where the kernel's table 1 ends. */
  function FirstHeap(): HeapRun {
    TailRun(FirstBlocks(), 0x7F_EFF4, 0x80_0000)
  }

  lemma FirstHeapIsHeap()
    ensures IsHeap(FirstHeap()) && AllUsed(FirstBlocks())
  {
    var s0, hole := FirstHeap().segs, Segment(0x7F_EFF4, 0xFF8, false);
    var b := FirstBlocks();
    assert s0 == b + [hole];
    var s1, s2, s3, s4, s5, s6 := s0[1..], s0[2..], s0[3..], s0[4..], s0[5..], s0[6..];
    assert s1[1..] == s2 && s2[1..] == s3 && s3[1..] == s4 && s4[1..] == s5 && s5[1..] == s6 && s6[1..] == [];
    assert Tiles(s6, 0x7F_EFF4, 0x80_0000) && NoTwins(s6);
    assert Tiles(s5, 0x52_8008, 0x80_0000) && NoTwins(s5);
    assert Tiles(s4, 0x52_6FF4, 0x80_0000) && NoTwins(s4);
    assert Tiles(s3, 0x52_4FF4, 0x80_0000) && NoTwins(s3);
    assert Tiles(s2, 0x52_2FF4, 0x80_0000) && NoTwins(s2);
    assert Tiles(s1, 0x51_FFF4, 0x80_0000) && NoTwins(s1);
  }

  lemma FirstHeapMatches(s: Space)
    requires HeapEndsAt(s, 2048) && forall a :: a in s.tables ==> a < 0x50_0000 || IsFirstTable(a)
    requires forall d :: d in s.directories ==> d < 0x50_0000 || d == 0x52_0000
    ensures Matches(s, FirstHeap())
  {
    FirstHeapIsHeap();
    var segs := FirstHeap().segs;
    assert segs[1] in segs && segs[2] in segs && segs[3] in segs && segs[4] in segs;
    assert UserAddr(segs[1]) == 0x52_0000 && UserAddr(segs[2]) == 0x52_3000 && UserAddr(segs[3]) == 0x52_5000;
    assert UserAddr(segs[4]) == 0x52_7000;
  }

  /** The heap goes on growing where it ends, page by page: for the directory at 0x7FF000, which reaches into the next
      table, and for the tables of the stack. */
  function StraySupply(): CloneSupply {
    CloneSupply(Supply(0x7F_F000, PagesBetween(0x80_0000, 0x80_2000)), seq(1024, i => StrayTable(i - 766)))
  }

  function StrayTable(k: int): Supply {
    if 0 <= k < 3
    then Supply(0x80_2000 + 0x2000 * k, PagesBetween(0x80_2000 + 0x2000 * k, 0x80_4000 + 0x2000 * k))
    else Supply(0, [])
  }

  lemma DirectoryIsHanded(at: nat) returns (after: seq<Segment>)
    requires at == 0x7F_EFF4
    ensures AllUsed(after)
    ensures HandsOut(FirstHeap(), 8192, 0x1000, StraySupply().directory, TailRun(after, 0x80_1008, 0x80_2000))
  {
    FirstHeapIsHeap();
    AlignsTo(at + 12, at + 12);
    after := TakesTail(FirstBlocks(), at, at + 0x100C, 8192, 0, 2, at + 0x2014, at + 0x300C, StraySupply().directory);
  }

  lemma TableIsHanded(k: nat, blocks: seq<Segment>, at: nat, next: nat) returns (after: seq<Segment>)
    requires k < 3 && AllUsed(blocks) && at == 0x80_1008 + 0x2000 * k && next == at + 0x2000
    ensures AllUsed(after)
    ensures HandsOut(TailRun(blocks, at, at + 0xFF8), 4096, 0x1000, StrayTable(k), TailRun(after, next, next + 0xFF8))
  {
    AlignsTo(at + 12, at + 0xFF8);
    after := TakesTail(blocks, at, at + 0xFF8, 4096, 0xFEC, 2, next, next + 0xFF8, StrayTable(k));
  }

  function TurnByTurn(h0: HeapRun, h1: HeapRun, h2: HeapRun, h3: HeapRun): seq<HeapRun> {
    seq(769, j => if j <= 510 then h0 else if j == 511 then h1 else if j == 512 then h2 else h3)
  }

  /** The heap after the directory, and after each of the three tables. */
  lemma StrayHeaps() returns (heaps: seq<HeapRun>)
    ensures |heaps| == 769 && HandsOut(FirstHeap(), 8192, 0x1000, StraySupply().directory, heaps[0])
    ensures forall k {:trigger StrayTable(k)} :: 0 <= k < 3 ==>
              HandsOut(heaps[510 + k], 4096, 0x1000, StrayTable(k), heaps[511 + k])
    ensures forall j {:trigger heaps[j + 1]} :: 0 <= j < 768 && !(510 <= j <= 512) ==> heaps[j + 1] == heaps[j]
    ensures heaps[768].top == 0x80_8000
  {
    var b0 := DirectoryIsHanded(0x7F_EFF4);
    var b1 := TableIsHanded(0, b0, 0x80_1008, 0x80_3008);
    var b2 := TableIsHanded(1, b1, 0x80_3008, 0x80_5008);
    var b3 := TableIsHanded(2, b2, 0x80_5008, 0x80_7008);
    heaps := TurnByTurn(TailRun(b0, 0x80_1008, 0x80_2000), TailRun(b1, 0x80_3008, 0x80_4000),
                        TailRun(b2, 0x80_5008, 0x80_6000), TailRun(b3, 0x80_7008, 0x80_8000));
  }

  lemma StrayIsServed(s: Space) returns (heaps: seq<HeapRun>)
    requires StackTables(s, 0x52_0000)
    ensures ServesClone(s, 0x52_0000, StraySupply(), FirstHeap(), heaps) && heaps[768].top == 0x80_8000
  {
    heaps := StrayHeaps();
    forall i | 256 <= i < 1024 ensures TurnServed(s, 0x52_0000, StraySupply(), heaps, i) {
      assert StraySupply().tables[i] == StrayTable(i - 766);
      var j := i - 256;
      assert !BootTable(i) ==> heaps[j + 1] == heaps[j];
    }
  }

  lemma NineFrames(s: Space, pages: seq<nat>)
    requires pages == PagesBetween(0x80_0000, 0x80_8000) && Pointer(s.directories, s.kernel, 2) == 0
    ensures Need(s, pages) == 9
  {
    assert pages == PagesFrom(2048, 8);
    forall p | p in pages ensures p / 1024 == 2 {
      InPagesFrom(2048, 8, p);
    }
    assert pages[0] in pages;
    assert TablesMissing(s, pages) == {2};
  }

  lemma StrayFails(s: Space, a: HeapRun, supply: CloneSupply, heaps: seq<HeapRun>)
    requires Sound(s) && Matches(s, a) && ServesClone(s, 0x52_0000, supply, a, heaps)
    requires a.top == 0x80_0000 && heaps[768].top == 0x80_8000 && Pointer(s.directories, s.kernel, 2) == 0
    ensures Supplied(s, [], 0x52_0000, supply) && AllPages(s, 0x52_0000, supply) == PagesBetween(0x80_0000, 0x80_8000)
    ensures !Forkable(s, [], 0x52_0000, supply)
  {
    assert PagesBetween(a.top, a.top) == [];
    HeapSuppliesClone(s, a, [], a, 0x52_0000, supply, heaps);
    AllIsConsecutive(s, a, [], a, 0x52_0000, supply, heaps);
    ForkIsSafeIff(s, a, [], a, 0x52_0000, supply, heaps);
    assert LastTable(0x80_0000) < 2 <= LastTable(0x80_8000);
  }

  /** A state reached from boot, with a process cloned from the kernel; the heap as it may be then; and the allocations
      of a clone from that heap. Frames are free, and yet a fork is not safe: the heap grows into a table that the
      kernel does not have, and it gets it while the child is in the ring and its directory is not set. */
  lemma ForkCanStray(code: nat, kernel: int)
    returns (s: Space, a: HeapRun, supply: CloneSupply, heaps: seq<HeapRun>)
    requires code <= 256 && kernel < 0x50_0000
    ensures FirstProcess(s, code, kernel) && Matches(s, a) && a.segs[0].used
    ensures ServesClone(s, s.live[0], supply, a, heaps) && Supplied(s, [], s.live[0], supply)
    ensures |s.used| + PresentFrom(s, s.live[0], 256) + Need(s, AllPages(s, s.live[0], supply)) <= s.managed
    ensures !Forkable(s, [], s.live[0], supply)
  {
    s := FirstIsReached(code, kernel);
    a, supply := FirstHeap(), StraySupply();
    FirstHeapMatches(s);
    heaps := StrayIsServed(s);
    StrayFails(s, a, supply, heaps);
    NineFrames(s, AllPages(s, 0x52_0000, supply));
    FewPresent(s, 0x52_0000, 256);
  }
}

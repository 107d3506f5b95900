/** Where page tables and directories come from: what the kernel's heap hands out is what the address spaces count on
    (src/alloc/kalloc.c, src/paging.c, src/process.c). */
module HeapSupply {
  import opened Alignment
  import AllocatorLaws
  import Kalloc
  import KallocHeap
  import SegmentOps
  import opened Segments
  import opened PageTables
  import opened KernelGrowth
  import opened PageCreation
  import opened Cloning
  import opened CloneSteps
  import opened Forking

  /** The index takes the 16 pages from 5 MB on, the heap follows. */
  const HeapStart := 0x51_0000

  /** The segments of the heap, and its end. */
  datatype HeapRun = HeapRun(segs: seq<Segment>, top: nat)

  ghost predicate IsHeap(a: HeapRun) {
    a.segs != [] && Tiles(a.segs, HeapStart, a.top) && NoTwins(a.segs) && a.top % 4096 == 0
  }

  ghost function Live(a: HeapRun): set<nat> {
    AllocatorLaws.Live(a.segs)
  }

  /** The pages by which a heap grows from one end to another. */
  function PagesBetween(from: nat, to: nat): seq<nat> {
    if from <= to then PagesFrom(from / 4096, to / 4096 - from / 4096) else []
  }

  lemma InPagesBetween(from: nat, to: nat, q: nat)
    ensures q in PagesBetween(from, to) <==> from / 4096 <= q < to / 4096
  {
    if from <= to {
      InPagesFrom(from / 4096, to / 4096 - from / 4096, q);
    }
  }

  lemma PagesBetweenJoin(from: nat, mid: nat, to: nat)
    requires from <= mid <= to
    ensures PagesBetween(from, mid) + PagesBetween(mid, to) == PagesBetween(from, to)
  {
    PagesFromJoin(from / 4096, mid / 4096 - from / 4096, to / 4096 - mid / 4096);
  }

  datatype HandingClause = Growing | Serving

  /** The allocation hands out the supply's address and grows the heap by its pages: where the heap then ends, and that
      some hole serves. */
  ghost predicate Handed(c: HandingClause, a: HeapRun, size: nat, alignment: nat, supply: Supply, b: HeapRun) {
    match c
    case Growing =>
      && b.top == a.top + PageBytes(GrownPages(a, b)) && supply.pages == PagesBetween(a.top, b.top)
    case Serving =>
      && a.segs != [] && supply.address >= 0
      && exists i, gap :: KallocHeap.Allocated(a.segs, size, alignment, GrownPages(a, b), i, gap,
                                               KallocHeap.Given(supply.address), b.segs)
  }

  function GrownPages(a: HeapRun, b: HeapRun): nat {
    if a.top <= b.top then (b.top - a.top) / 4096 else 0
  }

  ghost predicate HandsOut(a: HeapRun, size: nat, alignment: nat, supply: Supply, b: HeapRun) {
    forall c :: Handed(c, a, size, alignment, supply, b)
  }

  lemma HandsOutIsSound(a: HeapRun, size: nat, alignment: nat, supply: Supply, b: HeapRun)
    requires IsHeap(a) && HandsOut(a, size, alignment, supply, b)
    ensures IsHeap(b) && b.top >= a.top && supply.pages == PagesBetween(a.top, b.top)
    ensures supply.address !in Live(a) && Live(b) == Live(a) + {supply.address}
    ensures HeapStart < supply.address && supply.address + size < b.top
    ensures PowerOfTwo(alignment) ==> alignment > 0 && supply.address % alignment == 0
  {
    assert Handed(Growing, a, size, alignment, supply, b) && Handed(Serving, a, size, alignment, supply, b);
    var grownBy := GrownPages(a, b);
    var i, gap :| KallocHeap.Allocated(a.segs, size, alignment, grownBy, i, gap, KallocHeap.Given(supply.address),
                                       b.segs);
    AllocationIsHanded(a.segs, size, alignment, grownBy, i, gap, supply.address, b.segs, a.top, b.top);
  }

  lemma StillWhole(top: nat, grownBy: nat)
    requires top % 4096 == 0
    ensures (top + PageBytes(grownBy)) % 4096 == 0
  {
    DivisionIs(top + PageBytes(grownBy), 4096, top / 4096 + grownBy, 0);
  }

  lemma AllocationIsHanded(segs: seq<Segment>, size: nat, alignment: nat, grownBy: nat, i: nat, gap: nat, ptr: nat,
                           segs': seq<Segment>, top: nat, top': nat)
    requires segs != [] && Tiles(segs, HeapStart, top) && NoTwins(segs) && top' == top + PageBytes(grownBy)
    requires top % 4096 == 0
    requires KallocHeap.Allocated(segs, size, alignment, grownBy, i, gap, KallocHeap.Given(ptr), segs')
    ensures segs' != [] && Tiles(segs', HeapStart, top') && NoTwins(segs') && top' % 4096 == 0
    ensures ptr !in AllocatorLaws.Live(segs) && AllocatorLaws.Live(segs') == AllocatorLaws.Live(segs) + {ptr}
    ensures HeapStart < ptr && ptr + size < top'
    ensures PowerOfTwo(alignment) ==> alignment > 0 && ptr % alignment == 0
  {
    var r := KallocHeap.Given(ptr);
    assert PowerOfTwo(alignment) ==> alignment > 0 && ptr % alignment == 0 by {
      if PowerOfTwo(alignment) {
        AllocatorLaws.AllocationIsAligned(segs, size, alignment, grownBy, i, gap, r, segs');
      }
    }
    AllocatorLaws.AllocationIsSound(segs, size, alignment, grownBy, i, gap, r, segs', HeapStart, top);
    SegmentOps.TileAt(segs', i, HeapStart, top');
    StillWhole(top, grownBy);
  }

  /** The space and the heap fit together: of the kernel's pages from 5 MB on exactly those up to the heap's end are
      present, and every table and directory outside the reserved pages is a live block. */
  ghost predicate Matches(s: Space, a: HeapRun) {
    && IsHeap(a)
    && (forall p: nat :: 1280 <= p < 0x40000 ==> (PageOf(s, p).present <==> p < a.top / 4096))
    && (forall b :: b in s.tables && b >= 0x50_0000 ==> b in Live(a))
    && (forall d :: d in s.directories && d >= 0x50_0000 ==> d in Live(a))
  }

  lemma PageAlignment()
    ensures PowerOfTwo(0x1000)
  {
    assert Pow2(4) == 16;
    assert Pow2(8) == 256;
    assert Pow2(12) == 0x1000;
  }

  /** An address the heap hands out for a table or directory is unused. */
  lemma HandedOutIsUnused(s: Space, a: HeapRun, h: HeapRun, size: nat, supply: Supply, b: HeapRun)
    requires Matches(s, a) && IsHeap(h) && Live(a) <= Live(h) && HandsOut(h, size, 0x1000, supply, b)
    requires b.top <= 0x4000_0000
    ensures UnusedAddress(s, supply.address)
  {
    PageAlignment();
    HandsOutIsSound(h, size, 0x1000, supply, b);
  }

  lemma GrowthIsFree(s: Space, a: HeapRun, to: nat)
    requires Matches(s, a) && a.top <= to <= 0x4000_0000
    ensures Growable(s, PagesBetween(a.top, to))
  {
    SegmentOps.TileAt(a.segs, 0, HeapStart, a.top);
    PagesFromAreGrowable(s, a.top / 4096, to / 4096 - a.top / 4096);
  }

  /** What a process page's table needs of the heap. All pages of the block are there, not only the first. */
  lemma HeapSuppliesTable(s: Space, a: HeapRun, size: nat, supply: Supply, b: HeapRun)
    requires Matches(s, a) && HandsOut(a, size, 0x1000, supply, b) && b.top <= 0x4000_0000
    ensures TableSupplied(s, supply)
    ensures forall q: nat :: supply.address / 4096 <= q <= (supply.address + size) / 4096 ==>
              PageOf(s, q).present || q in supply.pages
  {
    HandedOutIsUnused(s, a, a, size, supply, b);
    HandsOutIsSound(a, size, 0x1000, supply, b);
    GrowthIsFree(s, a, b.top);
    forall q: nat | supply.address / 4096 <= q <= (supply.address + size) / 4096
      ensures PageOf(s, q).present || q in supply.pages
    {
      InPagesBetween(a.top, b.top, q);
    }
  }

  /** And once the pages are mapped and the block is a table or directory, space and heap fit together again. */
  lemma StillMatches(s: Space, t: Space, u: Space, a: HeapRun, size: nat, supply: Supply, b: HeapRun)
    requires Matches(s, a) && HandsOut(a, size, 0x1000, supply, b) && GrownBy(s, t, supply.pages) && KernelStill(t, u)
    requires u.tables.Keys <= t.tables.Keys + {supply.address}
    requires u.directories.Keys <= t.directories.Keys + {supply.address}
    ensures Matches(u, b)
  {
    HandsOutIsSound(a, size, 0x1000, supply, b);
    forall p: nat | 1280 <= p < 0x40000 ensures PageOf(u, p).present <==> p < b.top / 4096 {
      InPagesBetween(a.top, b.top, p);
      assert PageOf(u, p) == PageOf(t, p) && 1024 * (p / 1024) + p % 1024 == p;
      assert PageOf(s, p).present ==> PageOf(t, p) == PageOf(s, p);
    }
    forall x | x in u.tables && x >= 0x50_0000 ensures x in Live(b) {
      assert x in t.tables || x == supply.address;
    }
    forall x | x in u.directories && x >= 0x50_0000 ensures x in Live(b) {
      assert x in t.directories || x == supply.address;
    }
  }

  /* The supply of a whole clone. */

  /** The heap before and after the turn of table `i`. */
  ghost predicate TurnServed(s: Space, source: int, supply: CloneSupply, heaps: seq<HeapRun>, i: int) {
    256 <= i < |supply.tables| && i < |heaps| + 255 &&
    if Pointer(s.directories, source, i) == 0 then heaps[i - 255] == heaps[i - 256]
    else HandsOut(heaps[i - 256], 4096, 0x1000, supply.tables[i], heaps[i - 255])
  }

  /** `heaps[0]` is the heap when the directory's 8 KB are handed out, and `heaps[i - 256]` when it is the turn of table
      `i`. */
  ghost predicate ServesClone(s: Space, source: int, supply: CloneSupply, a: HeapRun, heaps: seq<HeapRun>) {
    && |heaps| == 769 && |supply.tables| == 1024 && HandsOut(a, 8192, 0x1000, supply.directory, heaps[0])
    && forall i :: 256 <= i < 1024 ==> TurnServed(s, source, supply, heaps, i)
  }

  /** Blocks stay live, and the heap only grows. */
  lemma {:induction false} HeapsAreSound(s: Space, source: int, supply: CloneSupply, a: HeapRun, heaps: seq<HeapRun>,
                                         n: int)
    requires IsHeap(a) && ServesClone(s, source, supply, a, heaps) && 256 <= n <= 1024
    ensures IsHeap(heaps[n - 256]) && a.top <= heaps[0].top <= heaps[n - 256].top
    ensures Live(a) + {supply.directory.address} <= Live(heaps[n - 256])
    ensures forall k {:trigger supply.tables[k]} :: 256 <= k < n && Pointer(s.directories, source, k) != 0 ==>
              supply.tables[k].address in Live(heaps[n - 256])
    decreases n
  {
    if n == 256 {
      HandsOutIsSound(a, 8192, 0x1000, supply.directory, heaps[0]);
    } else {
      HeapsAreSound(s, source, supply, a, heaps, n - 1);
      assert TurnServed(s, source, supply, heaps, n - 1);
      if Pointer(s.directories, source, n - 1) != 0 {
        HandsOutIsSound(heaps[n - 257], 4096, 0x1000, supply.tables[n - 1], heaps[n - 256]);
      }
    }
  }

  lemma {:induction false} TopsRise(s: Space, source: int, supply: CloneSupply, a: HeapRun, heaps: seq<HeapRun>, j: int,
                                    n: int)
    requires IsHeap(a) && ServesClone(s, source, supply, a, heaps) && 256 <= j <= n <= 1024
    ensures heaps[j - 256].top <= heaps[n - 256].top
    decreases n
  {
    if j < n {
      TopsRise(s, source, supply, a, heaps, j, n - 1);
      HeapsAreSound(s, source, supply, a, heaps, n - 1);
      assert TurnServed(s, source, supply, heaps, n - 1);
      if Pointer(s.directories, source, n - 1) != 0 {
        HandsOutIsSound(heaps[n - 257], 4096, 0x1000, supply.tables[n - 1], heaps[n - 256]);
      }
    }
  }

  /** What one turn grows by. */
  lemma TurnIsConsecutive(s: Space, source: int, supply: CloneSupply, a: HeapRun, heaps: seq<HeapRun>, i: int)
    requires IsHeap(a) && ServesClone(s, source, supply, a, heaps) && 256 <= i < 1024
    ensures IsHeap(heaps[i - 256]) && IsHeap(heaps[i - 255]) && heaps[i - 256].top <= heaps[i - 255].top
    ensures PagesOfTable(s, source, supply, i) == PagesBetween(heaps[i - 256].top, heaps[i - 255].top)
  {
    HeapsAreSound(s, source, supply, a, heaps, i);
    HeapsAreSound(s, source, supply, a, heaps, i + 1);
    assert TurnServed(s, source, supply, heaps, i);
    if Pointer(s.directories, source, i) != 0 {
      HandsOutIsSound(heaps[i - 256], 4096, 0x1000, supply.tables[i], heaps[i - 255]);
    } else {
      assert PagesBetween(heaps[i - 256].top, heaps[i - 256].top) == [];
    }
  }

  /** The heap grows by consecutive pages from turn to turn. */
  lemma {:induction false} RestIsConsecutive(s: Space, source: int, supply: CloneSupply, a: HeapRun,
                                             heaps: seq<HeapRun>, n: int)
    requires IsHeap(a) && ServesClone(s, source, supply, a, heaps) && 256 <= n <= 1024
    ensures IsHeap(heaps[n - 256]) && IsHeap(heaps[768]) && heaps[n - 256].top <= heaps[768].top
    ensures RestPages(s, source, supply, n) == PagesBetween(heaps[n - 256].top, heaps[768].top)
    decreases 1024 - n
  {
    if n < 1024 {
      RestIsConsecutive(s, source, supply, a, heaps, n + 1);
      TurnIsConsecutive(s, source, supply, a, heaps, n);
      PagesBetweenJoin(heaps[n - 256].top, heaps[n - 255].top, heaps[768].top);
    } else {
      HeapsAreSound(s, source, supply, a, heaps, 1024);
      assert PagesBetween(heaps[768].top, heaps[768].top) == [];
    }
  }

  /** Each page up to the heap's present end comes with the directory or with a table before. */
  lemma {:induction false} PageComesInTurn(s: Space, source: int, supply: CloneSupply, a: HeapRun, heaps: seq<HeapRun>,
                                           n: int, q: nat)
    requires IsHeap(a) && ServesClone(s, source, supply, a, heaps) && 256 <= n <= 1024
    requires a.top / 4096 <= q < heaps[n - 256].top / 4096
    ensures PageSupplied(s, source, supply, n, q)
    decreases n
  {
    if n == 256 {
      HandsOutIsSound(a, 8192, 0x1000, supply.directory, heaps[0]);
      InPagesBetween(a.top, heaps[0].top, q);
    } else {
      TurnIsConsecutive(s, source, supply, a, heaps, n - 1);
      if q < heaps[n - 257].top / 4096 {
        PageComesInTurn(s, source, supply, a, heaps, n - 1, q);
      } else {
        InPagesBetween(heaps[n - 257].top, heaps[n - 256].top, q);
        assert q in PagesOfTable(s, source, supply, n - 1);
      }
    }
  }

  /** The heap has grown by the pages `before` since it last fitted the space, as when a child is allocated. */
  ghost predicate GrownSince(s: Space, base: HeapRun, before: seq<nat>, a: HeapRun) {
    && Matches(s, base) && IsHeap(a) && base.top <= a.top && Live(base) <= Live(a)
    && before == PagesBetween(base.top, a.top)
  }

  lemma AllIsConsecutive(s: Space, base: HeapRun, before: seq<nat>, a: HeapRun, source: int, supply: CloneSupply,
                         heaps: seq<HeapRun>)
    requires GrownSince(s, base, before, a) && ServesClone(s, source, supply, a, heaps)
    ensures IsHeap(heaps[768]) && a.top <= heaps[768].top
    ensures AllPages(s, source, supply) == PagesBetween(a.top, heaps[768].top)
    ensures before + AllPages(s, source, supply) == PagesBetween(base.top, heaps[768].top)
  {
    RestIsConsecutive(s, source, supply, a, heaps, 256);
    HandsOutIsSound(a, 8192, 0x1000, supply.directory, heaps[0]);
    PagesBetweenJoin(a.top, heaps[0].top, heaps[768].top);
    PagesBetweenJoin(base.top, a.top, heaps[768].top);
  }

  lemma AddressInTurn(s: Space, base: HeapRun, before: seq<nat>, a: HeapRun, source: int, supply: CloneSupply,
                      heaps: seq<HeapRun>, i: int)
    requires GrownSince(s, base, before, a) && ServesClone(s, source, supply, a, heaps) && heaps[768].top <= 0x4000_0000
    requires 256 <= i < 1024 && Pointer(s.directories, source, i) != 0
    ensures AddressSupplied(s, before, source, supply, i + 1, supply.tables[i].address)
    ensures supply.tables[i].address != supply.directory.address
    ensures forall k {:trigger supply.tables[k]} :: 256 <= k < i && Pointer(s.directories, source, k) != 0 ==>
              supply.tables[k].address != supply.tables[i].address
  {
    HeapsAreSound(s, source, supply, a, heaps, i);
    assert TurnServed(s, source, supply, heaps, i);
    HandsOutIsSound(heaps[i - 256], 4096, 0x1000, supply.tables[i], heaps[i - 255]);
    TopsRise(s, source, supply, a, heaps, i + 1, 1024);
    HandedOutIsUnused(s, base, heaps[i - 256], 4096, supply.tables[i], heaps[i - 255]);
    BackedInTurn(s, base, before, a, source, supply, heaps, i + 1, supply.tables[i].address / 4096);
  }

  lemma BackedInTurn(s: Space, base: HeapRun, before: seq<nat>, a: HeapRun, source: int, supply: CloneSupply,
                     heaps: seq<HeapRun>, n: int, q: nat)
    requires GrownSince(s, base, before, a) && ServesClone(s, source, supply, a, heaps) && 256 <= n <= 1024
    requires 1280 <= q < heaps[n - 256].top / 4096 && q < 0x40000
    ensures PageOf(s, q).present || q in before || PageSupplied(s, source, supply, n, q)
  {
    if q >= a.top / 4096 {
      PageComesInTurn(s, source, supply, a, heaps, n, q);
    } else {
      InPagesBetween(base.top, a.top, q);
    }
  }

  /** What the heap hands out in the course of a clone is all that cloning asks of it. */
  lemma HeapSuppliesClone(s: Space, base: HeapRun, before: seq<nat>, a: HeapRun, source: int, supply: CloneSupply,
                          heaps: seq<HeapRun>)
    requires GrownSince(s, base, before, a) && ServesClone(s, source, supply, a, heaps)
    requires heaps[768].top <= 0x4000_0000
    ensures Supplied(s, before, source, supply)
  {
    AllIsConsecutive(s, base, before, a, source, supply, heaps);
    GrowthIsFree(s, base, heaps[768].top);
    DirectoryInTurn(s, base, before, a, source, supply, heaps);
    forall i | 256 <= i < 1024 && Pointer(s.directories, source, i) != 0
      ensures AddressSupplied(s, before, source, supply, i + 1, supply.tables[i].address)
      ensures supply.tables[i].address != supply.directory.address
      ensures forall k {:trigger supply.tables[k]} :: 256 <= k < i && Pointer(s.directories, source, k) != 0 ==>
                supply.tables[k].address != supply.tables[i].address
    {
      AddressInTurn(s, base, before, a, source, supply, heaps, i);
    }
  }

  lemma DirectoryInTurn(s: Space, base: HeapRun, before: seq<nat>, a: HeapRun, source: int, supply: CloneSupply,
                        heaps: seq<HeapRun>)
    requires GrownSince(s, base, before, a) && ServesClone(s, source, supply, a, heaps) && heaps[768].top <= 0x4000_0000
    ensures AddressSupplied(s, before, source, supply, 256, supply.directory.address)
    ensures forall q: nat :: supply.directory.address / 4096 <= q <= (supply.directory.address + 8192) / 4096 ==>
              PageOf(s, q).present || q in before || PageSupplied(s, source, supply, 256, q)
  {
    HandsOutIsSound(a, 8192, 0x1000, supply.directory, heaps[0]);
    TopsRise(s, source, supply, a, heaps, 256, 1024);
    HandedOutIsUnused(s, base, a, 8192, supply.directory, heaps[0]);
    forall q: nat | supply.directory.address / 4096 <= q <= (supply.directory.address + 8192) / 4096
      ensures PageOf(s, q).present || q in before || PageSupplied(s, source, supply, 256, q)
    {
      BackedInTurn(s, base, before, a, source, supply, heaps, 256, q);
    }
  }

  /* When a fork is safe. */

  /** The number of the kernel's table for the last page below an address. */
  function LastTable(top: nat): int {
    (top - 1) / 4096 / 1024
  }

  /** Growth from `from` to `to` reaches into no table that is missing. */
  ghost predicate CrossesIntoNone(s: Space, from: nat, to: nat) {
    forall t :: LastTable(from) < t <= LastTable(to) ==> Pointer(s.directories, s.kernel, t) != 0
  }

  lemma MissingOfConsecutive(s: Space, p: nat, n: nat, i: int)
    ensures i in TablesMissing(s, PagesFrom(p, n)) <==>
            Pointer(s.directories, s.kernel, i) == 0 && exists q: nat :: p <= q < p + n && q / 1024 == i
  {
    forall q: nat ensures q in PagesFrom(p, n) <==> p <= q < p + n {
      InPagesFrom(p, n, q);
    }
  }

  lemma CrossingIsMissing(s: Space, p: nat, c: nat, n: nat)
    requires p > 0 && c <= n && Pointer(s.directories, s.kernel, (p - 1) / 1024) != 0
    ensures TablesMissing(s, PagesFrom(p, n)) == TablesMissing(s, PagesFrom(p, c)) <==>
            forall t :: (p + c - 1) / 1024 < t <= (p + n - 1) / 1024 ==> Pointer(s.directories, s.kernel, t) != 0
  {
    var now, all := TablesMissing(s, PagesFrom(p, c)), TablesMissing(s, PagesFrom(p, n));
    forall t | (p + c - 1) / 1024 < t <= (p + n - 1) / 1024 && Pointer(s.directories, s.kernel, t) == 0
      ensures t in all && t !in now
    {
      MissingOfConsecutive(s, p, n, t);
      MissingOfConsecutive(s, p, c, t);
      var q: nat := 1024 * t;
      assert q / 1024 == t && p <= q < p + n;
    }
    forall t | t !in now && t in all ensures (p + c - 1) / 1024 < t <= (p + n - 1) / 1024 {
      MissingOfConsecutive(s, p, n, t);
      MissingOfConsecutive(s, p, c, t);
      var q: nat :| p <= q < p + n && q / 1024 == t;
    }
    forall t | t in now ensures t in all {
      MissingOfConsecutive(s, p, n, t);
      MissingOfConsecutive(s, p, c, t);
    }
  }

  lemma CrossesIff(s: Space, base: HeapRun, mid: nat, to: nat)
    requires Sound(s) && Matches(s, base) && base.top <= mid <= to <= 0x4000_0000 && mid % 4096 == 0 && to % 4096 == 0
    ensures TablesMissing(s, PagesBetween(base.top, to)) == TablesMissing(s, PagesBetween(base.top, mid))
            <==> CrossesIntoNone(s, mid, to)
  {
    SegmentOps.TileAt(base.segs, 0, HeapStart, base.top);
    var p := base.top / 4096;
    assert Pointer(s.directories, s.kernel, (p - 1) / 1024) != 0 by {
      NullIsNoTable(s);
      assert PageOf(s, p - 1).present;
    }
    CrossingIsMissing(s, p, mid / 4096 - p, to / 4096 - p);
    LastTableIs(mid);
    LastTableIs(to);
  }

  lemma LastTableIs(top: nat)
    requires top > 0 && top % 4096 == 0
    ensures LastTable(top) == (top / 4096 - 1) / 1024
  {
    assert top - 1 == 4096 * (top / 4096 - 1) + 4095;
  }

  /** A fork is safe if and only if the frames suffice and the heap, from where it ends once the child is allocated to
      where it ends once the clone is made, crosses into no table of the kernel that is missing. */
  lemma ForkIsSafeIff(s: Space, base: HeapRun, childPages: seq<nat>, a: HeapRun, source: int, supply: CloneSupply,
                      heaps: seq<HeapRun>)
    requires Sound(s) && GrownSince(s, base, childPages, a) && ServesClone(s, source, supply, a, heaps)
    requires heaps[768].top <= 0x4000_0000
    ensures Forkable(s, childPages, source, supply)
            <==> && |s.used| + PresentFrom(s, source, 256) + Need(s, childPages + AllPages(s, source, supply))
                    <= s.managed
                 && CrossesIntoNone(s, a.top, heaps[768].top)
  {
    AllIsConsecutive(s, base, childPages, a, source, supply, heaps);
    CrossesIff(s, base, a.top, heaps[768].top);
  }

  lemma AllocationHandsOut(a: HeapRun, size: nat, alignment: nat, grownBy: nat, i: nat, gap: nat, supply: Supply,
                           b: HeapRun)
    requires a.segs != [] && supply.address >= 0 && b.top == a.top + PageBytes(grownBy)
    requires KallocHeap.Allocated(a.segs, size, alignment, grownBy, i, gap, KallocHeap.Given(supply.address), b.segs)
    requires supply.pages == PagesBetween(a.top, b.top)
    ensures HandsOut(a, size, alignment, supply, b)
  {
    assert GrownPages(a, b) == grownBy;
  }

  /** With a block at its start the heap refuses nothing. */
  method AllocFirmly(heap: KallocHeap.Heap, size: nat, alignment: nat)
    returns (ptr: nat, ghost grownBy: nat, ghost i: nat, ghost gap: nat)
    requires heap.Valid() && heap.segs[0].used
    requires heap.avl.FindHole(size, alignment).Some? || heap.CanGrowFor(size, alignment)
    modifies heap`size, heap`pages, heap`segs, heap`mapped, heap.ram, heap.avl, heap.avl.pool
    ensures heap.Valid() && heap.segs[0].used && heap.size == old(heap.size) + PageBytes(grownBy)
    ensures old(heap.segs) != []
    ensures KallocHeap.Allocated(old(heap.segs), size, alignment, grownBy, i, gap, KallocHeap.Given(ptr), heap.segs)
  {
    ghost var segs := heap.segs;
    var r;
    ghost var index;
    r, grownBy, i, gap, index := heap.Alloc(size, alignment);
    Kalloc.FirstBlockPreventsRefusal(segs, size, alignment, grownBy, i, gap, r, heap.segs);
    ptr := r.ptr;
  }

  /** kalloc_alloc_aligned for tables and directories, over the heap itself. */
  method AllocAligned(heap: KallocHeap.Heap, size: nat) returns (ptr: nat, ghost supply: Supply)
    requires heap.Valid() && heap.segs[0].used && heap.initialAddr == HeapStart
    requires heap.avl.FindHole(size, 0x1000).Some? || heap.CanGrowFor(size, 0x1000)
    modifies heap`size, heap`pages, heap`segs, heap`mapped, heap.ram, heap.avl, heap.avl.pool
    ensures heap.Valid() && heap.segs[0].used && supply.address == ptr
    ensures HandsOut(HeapRun(old(heap.segs), old(HeapStart + heap.size)), size, 0x1000, supply,
                     HeapRun(heap.segs, HeapStart + heap.size))
  {
    ghost var a := HeapRun(heap.segs, HeapStart + heap.size);
    ghost var grownBy, i, gap;
    ptr, grownBy, i, gap := AllocFirmly(heap, size, 0x1000);
    ghost var b := HeapRun(heap.segs, HeapStart + heap.size);
    supply := Supply(ptr, PagesBetween(a.top, b.top));
    AllocationHandsOut(a, size, 0x1000, grownBy, i, gap, supply, b);
  }

  /** The heap's run is that of the values above, and its mapped pages are those up to its end. */
  lemma HeapIsRun(heap: KallocHeap.Heap)
    requires heap.Valid() && heap.initialAddr == HeapStart
    ensures IsHeap(HeapRun(heap.segs, HeapStart + heap.size))
    ensures forall p: nat :: p in heap.mapped <==> 1280 <= p < (HeapStart + heap.size) / 4096
  {}
}

/** The growth of the kernel's half (src/paging.c): pages are added for the kernel's heap, and the tables they need. */
module KernelGrowth {
  import opened PageTables
  import opened SpaceSteps
  import SpaceRuns

  /** What the heap hands out: an address, after growing by the pages it had to add for it, in that order. */
  datatype Supply = Supply(address: int, pages: seq<nat>)

  /** An entry once a frame has been found for it; its other bits stay. */
  function Filled(e: Entry, userMode: bool, frame: nat): Entry {
    e.(present := true, userMode := userMode, writable := true, frame := frame)
  }

  /** The pages from 1 MB to 5 MB are kept for the kernel's own tables. */
  predicate ReservedPage(pageNum: int) {
    256 <= pageNum < 1280
  }

  /** The space once page number 1024 * i + j of the kernel has been given a frame. */
  function KernelPageCreated(s: Space, i: int, j: int, frame: nat): Space {
    MapFrame(s, Pointer(s.directories, s.kernel, i), j, Filled(EntryAt(s, s.kernel, i, j), false, frame))
  }

  lemma KernelPageCreatedKeeps(s: Space, i: int, j: int, frame: nat)
    requires Sound(s) && 0 <= i < 256 && 0 <= j < 1024 && Pointer(s.directories, s.kernel, i) != 0
    requires !ReservedPage(1024 * i + j)
    requires !EntryAt(s, s.kernel, i, j).present && frame < s.managed && frame !in s.used
    ensures Sound(KernelPageCreated(s, i, j, frame)) && SpaceRuns.Reaches(s, KernelPageCreated(s, i, j, frame))
  {
    TableIsThere(s, s.kernel, i);
    SpaceRuns.OneStep(s, SpaceRuns.FillKernelEntry(i, j, Filled(EntryAt(s, s.kernel, i, j), false, frame)));
  }

  /** No page is present under a table just added. */
  lemma KernelTableIsThere(s: Space, i: int, frame: nat)
    requires Sound(s) && CanAddKernelTable(s, i, frame)
    ensures var t := KernelTableAdded(s, i, frame);
            && KernelTableIsIn(s, t, i, frame) && Sound(t)
            && Pointer(t.directories, s.kernel, i) == KernelTableAddress(i)
            && forall j :: !EntryAt(t, s.kernel, i, j).present
  {
    KernelTableAddedKeeps(s, i, frame);
    assert Holds(s, Shapes) && Holds(s, Layout) && Holds(s, Roots) && Holds(s, Sharing);
    KernelTableAddedPointwise(s, i, frame);
  }

  /* What growth keeps. */

  /** Tables above 1 GB keep their places and their entries. */
  ghost predicate UpperKept(s: Space, t: Space) {
    && (forall a {:trigger a in s.home} :: a in s.tables && a in s.home ==> a in t.home && t.home[a] == s.home[a])
    && (forall a, j {:trigger EntryIn(t.tables, a, j)} :: a in s.tables && a in s.home ==>
          EntryIn(t.tables, a, j) == EntryIn(s.tables, a, j))
  }

  /** A pointer changes only where a table below 1 GB was missing, of the kernel or of a live process. */
  ghost predicate PointersKept(s: Space, t: Space) {
    forall e, k {:trigger Pointer(t.directories, e, k)} {:trigger Register(t.directories, e, k)} ::
      Pointer(s.directories, e, k) != 0 || k >= 256 || (e !in s.live && e != s.kernel) ==>
        && Pointer(t.directories, e, k) == Pointer(s.directories, e, k)
        && Register(t.directories, e, k) == Register(s.directories, e, k)
  }

  /** Frame `f` backs a page of the kernel below 1 GB that was not present before. */
  ghost predicate GrowthFrame(s: Space, t: Space, f: nat) {
    exists i, j {:trigger EntryAt(t, t.kernel, i, j)} ::
      0 <= i < 256 && EntryAt(t, t.kernel, i, j).present && EntryAt(t, t.kernel, i, j).frame == f
      && !EntryAt(s, s.kernel, i, j).present
  }

  /** Exactly the frames of the kernel's new pages are newly in use. */
  ghost predicate GrowthCounted(s: Space, t: Space) {
    forall f: nat :: f in t.used <==> f in s.used || GrowthFrame(s, t, f)
  }

  /** New tables lie among the kernel's, below the heap. */
  ghost predicate TablesGrown(s: Space, t: Space) {
    s.tables.Keys <= t.tables.Keys && forall a :: a in t.tables && a !in s.tables ==> a < 0x500000
  }

  /** From `s` to `t` only the kernel's half grew. */
  ghost predicate KernelGrown(s: Space, t: Space) {
    && t.managed == s.managed && t.live == s.live && t.directories.Keys == s.directories.Keys
    && KernelKept(s, t) && TablesGrown(s, t) && UpperKept(s, t) && PointersKept(s, t) && GrowthCounted(s, t)
  }

  lemma GrownIsTransitive(s: Space, t: Space, u: Space)
    requires KernelGrown(s, t) && KernelGrown(t, u)
    ensures KernelGrown(s, u)
  {
    assert GrowthCounted(s, u) by {
      FramesAddUp(s, t, u);
    }
  }

  lemma FramesAddUp(s: Space, t: Space, u: Space)
    requires GrowthCounted(s, t) && GrowthCounted(t, u) && KernelKept(s, t) && KernelKept(t, u)
    ensures GrowthCounted(s, u)
  {
    forall f: nat ensures f in u.used <==> f in s.used || GrowthFrame(s, u, f) {
      FrameAddsUp(s, t, u, f);
    }
  }

  lemma FrameAddsUp(s: Space, t: Space, u: Space, f: nat)
    requires KernelKept(s, t) && KernelKept(t, u)
    ensures GrowthFrame(s, u, f) <==> GrowthFrame(s, t, f) || GrowthFrame(t, u, f)
  {
    if GrowthFrame(s, t, f) {
      var i, j :| 0 <= i < 256 && EntryAt(t, t.kernel, i, j).present && EntryAt(t, t.kernel, i, j).frame == f
                  && !EntryAt(s, s.kernel, i, j).present;
      assert EntryAt(u, u.kernel, i, j) == EntryAt(t, t.kernel, i, j);
    }
    if GrowthFrame(t, u, f) {
      var i, j :| 0 <= i < 256 && EntryAt(u, u.kernel, i, j).present && EntryAt(u, u.kernel, i, j).frame == f
                  && !EntryAt(t, t.kernel, i, j).present;
      assert !EntryAt(s, s.kernel, i, j).present || EntryAt(t, t.kernel, i, j).present;
    }
    if GrowthFrame(s, u, f) {
      var i, j :| 0 <= i < 256 && EntryAt(u, u.kernel, i, j).present && EntryAt(u, u.kernel, i, j).frame == f
                  && !EntryAt(s, s.kernel, i, j).present;
      assert EntryAt(t, t.kernel, i, j).present ==> EntryAt(u, u.kernel, i, j) == EntryAt(t, t.kernel, i, j);
    }
  }

  /** An address of the heap that no table or directory has. */
  predicate UnusedAddress(s: Space, a: int) {
    0x500000 <= a < 0x4000_0000 && a % 4096 == 0 && a !in s.tables && a !in s.directories
  }

  /* Which pages are added, and how many frames that takes. */

  /** Page number `p` of the kernel. */
  function PageOf(s: Space, p: int): Entry {
    EntryAt(s, s.kernel, p / 1024, p % 1024)
  }

  /** The kernel's tables that some of the pages need and that are missing. */
  function TablesMissing(s: Space, pages: seq<nat>): set<int> {
    set p | p in pages && Pointer(s.directories, s.kernel, p / 1024) == 0 :: p / 1024
  }

  /** The frames that growth by the pages takes: one for each page and one for each missing table. */
  function Need(s: Space, pages: seq<nat>): nat {
    |pages| + |TablesMissing(s, pages)|
  }

  /** Pages the heap may grow by: above the reserved ones and below 1 GB, absent, and no two the same. */
  ghost predicate Growable(s: Space, pages: seq<nat>) {
    && (forall p :: p in pages ==> 1280 <= p < 0x40000 && !PageOf(s, p).present)
    && (forall j, k :: 0 <= j < k < |pages| ==> pages[j] != pages[k])
  }

  /** The kernel's half grew by exactly these pages, and the tables they need. */
  ghost predicate GrownBy(s: Space, t: Space, pages: seq<nat>) {
    && KernelGrown(s, t)
    && (forall p {:trigger p in pages} :: p in pages ==> p < 0x40000 && PageOf(t, p).present)
    && (forall i, j {:trigger EntryAt(t, t.kernel, i, j)} :: 0 <= i < 256 && EntryAt(t, t.kernel, i, j).present ==>
          EntryAt(s, s.kernel, i, j).present || 1024 * i + j in pages || ReservedPage(1024 * i + j))
    && TablesFollow(s, t, pages)
    && |t.used| == |s.used| + Need(s, pages)
  }

  /** Of the kernel's missing tables below 1 GB exactly those the pages need are there now. */
  ghost predicate TablesFollow(s: Space, t: Space, pages: seq<nat>) {
    forall p: nat {:trigger Pointer(t.directories, t.kernel, p / 1024)} :: p < 0x40000 ==>
      (Pointer(t.directories, t.kernel, p / 1024) == 0
       <==> Pointer(s.directories, s.kernel, p / 1024) == 0 && p / 1024 !in TablesMissing(s, pages))
  }

  /** What growth by some pages leaves to be done for the others. */
  lemma NeedSplits(s: Space, t: Space, pages: seq<nat>, rest: seq<nat>)
    requires TablesFollow(s, t, pages) && forall p :: p in rest ==> p < 0x40000
    ensures Need(s, pages + rest) == Need(s, pages) + Need(t, rest)
  {
    var now, later, all := TablesMissing(s, pages), TablesMissing(t, rest), TablesMissing(s, pages + rest);
    forall i | i in all ensures i in now || i in later {
      var p :| p in pages + rest && Pointer(s.directories, s.kernel, p / 1024) == 0 && p / 1024 == i;
      assert p in rest && i !in now ==> Pointer(t.directories, t.kernel, p / 1024) == 0;
    }
    forall i | i in later ensures i in all && i !in now {
      var p :| p in rest && Pointer(t.directories, t.kernel, p / 1024) == 0 && p / 1024 == i;
    }
    assert all == now + later;
    assert now * later == {};
  }

  lemma MissingSplits(s: Space, pages: seq<nat>, rest: seq<nat>)
    ensures TablesMissing(s, pages) <= TablesMissing(s, pages + rest)
    ensures |TablesMissing(s, pages + rest)| == |TablesMissing(s, pages)| <==>
            TablesMissing(s, pages + rest) == TablesMissing(s, pages)
  {
    var now, all := TablesMissing(s, pages), TablesMissing(s, pages + rest);
    forall i | i in now ensures i in all {
      var p :| p in pages && Pointer(s.directories, s.kernel, p / 1024) == 0 && p / 1024 == i;
      assert p in pages + rest;
    }
    assert all == now + (all - now);
  }

  lemma NeedGrows(s: Space, pages: seq<nat>, rest: seq<nat>)
    ensures Need(s, pages) <= Need(s, pages + rest)
  {
    MissingSplits(s, pages, rest);
    assert TablesMissing(s, pages + rest)
           == TablesMissing(s, pages) + (TablesMissing(s, pages + rest) - TablesMissing(s, pages));
  }

  lemma TablesFollowOn(s: Space, t: Space, u: Space, pages: seq<nat>, rest: seq<nat>)
    requires TablesFollow(s, t, pages) && TablesFollow(t, u, rest) && forall p :: p in rest ==> p < 0x40000
    ensures TablesFollow(s, u, pages + rest)
  {
    forall p: nat | p < 0x40000
      ensures Pointer(u.directories, u.kernel, p / 1024) == 0
              <==> Pointer(s.directories, s.kernel, p / 1024) == 0 && p / 1024 !in TablesMissing(s, pages + rest)
    {
      assert Pointer(t.directories, t.kernel, p / 1024) == 0
             <==> Pointer(s.directories, s.kernel, p / 1024) == 0 && p / 1024 !in TablesMissing(s, pages);
      if p / 1024 in TablesMissing(t, rest) {
        var q :| q in rest && Pointer(t.directories, t.kernel, q / 1024) == 0 && q / 1024 == p / 1024;
        assert q in pages + rest;
      }
      if Pointer(s.directories, s.kernel, p / 1024) == 0 && p / 1024 in TablesMissing(s, pages + rest) {
        var q :| q in pages + rest && Pointer(s.directories, s.kernel, q / 1024) == 0 && q / 1024 == p / 1024;
        assert q in pages || q in rest;
      }
    }
  }

  lemma GrownByBoth(s: Space, t: Space, u: Space, pages: seq<nat>, rest: seq<nat>)
    requires GrownBy(s, t, pages) && GrownBy(t, u, rest)
    ensures GrownBy(s, u, pages + rest)
  {
    GrownIsTransitive(s, t, u);
    TablesFollowOn(s, t, u, pages, rest);
    NeedSplits(s, t, pages, rest);
    forall p | p in pages + rest ensures p < 0x40000 && PageOf(u, p).present {
      if p in pages {
        assert PageOf(t, p).present && p / 1024 < 256;
      }
    }
  }

  /** Pages not added yet can still be added. */
  lemma StillGrowable(s: Space, t: Space, pages: seq<nat>, rest: seq<nat>)
    requires Growable(s, pages + rest) && GrownBy(s, t, pages)
    ensures Growable(t, rest)
  {
    var all := pages + rest;
    forall j, k | 0 <= j < k < |rest| ensures rest[j] != rest[k] {
      assert all[|pages| + j] != all[|pages| + k];
    }
    forall p | p in rest ensures 1280 <= p < 0x40000 && !PageOf(t, p).present {
      var k :| 0 <= k < |rest| && rest[k] == p;
      forall j | 0 <= j < |pages| ensures pages[j] != p {
        assert all[j] != all[|pages| + k];
      }
      assert p in all && 0 <= p / 1024 < 256 && 1024 * (p / 1024) + p % 1024 == p;
    }
  }

  /* One page more. */

  lemma PageIsGrowth(s: Space, t: Space, i: int, j: int, frame: nat)
    requires Sound(s) && 0 <= i < 256 && 0 <= j < 1024 && Pointer(s.directories, s.kernel, i) != 0
    requires !EntryAt(s, s.kernel, i, j).present && frame !in s.used && t == KernelPageCreated(s, i, j, frame)
    ensures KernelGrown(s, t) && |t.used| == |s.used| + 1
    ensures forall k, l :: k < 256 && EntryAt(t, t.kernel, k, l).present ==>
              EntryAt(s, s.kernel, k, l).present || (k == i && l == j)
    ensures EntryAt(t, t.kernel, i, j).present
  {
    TableIsThere(s, s.kernel, i);
    assert Holds(s, Homes) && Holds(s, Layout);
    var a := Pointer(s.directories, s.kernel, i);
    EntriesAfterMap(s, t, a, j, Filled(EntryAt(s, s.kernel, i, j), false, frame));
    PageIsCounted(s, t, i, j, frame);
  }

  lemma PageIsCounted(s: Space, t: Space, i: int, j: int, frame: nat)
    requires t.used == s.used + {frame} && 0 <= i < 256 && t.kernel == s.kernel
    requires forall k, l :: k < 256 && EntryAt(t, t.kernel, k, l).present ==>
               EntryAt(s, s.kernel, k, l).present || (k == i && l == j)
    requires !EntryAt(s, s.kernel, i, j).present
    requires EntryAt(t, t.kernel, i, j).present && EntryAt(t, t.kernel, i, j).frame == frame
    ensures GrowthCounted(s, t)
  {}

  /** Only the page of the new table is new. */
  lemma TablePageOnly(s: Space, t: Space, i: int, frame: nat)
    requires KernelTableIsIn(s, t, i, frame) && Pointer(s.directories, s.kernel, i) == 0
    requires 2 <= i && KernelTables(s.directories, s.kernel, s.tables) && 0 !in s.tables
    ensures forall k, l :: k < 256 && EntryAt(t, t.kernel, k, l).present ==>
              EntryAt(t, t.kernel, k, l) == EntryAt(s, s.kernel, k, l) || (k == 0 && l == 256 + i)
    ensures EntryAt(t, t.kernel, 0, 256 + i) == KernelEntry(frame)
    ensures !EntryAt(s, s.kernel, 0, 256 + i).present ==> KernelKept(s, t)
  {
    assert Pointer(s.directories, s.kernel, 0) == KernelTableAddress(0);
    assert forall k, l :: k != i && !(k == 0 && l == 256 + i) ==>
      EntryAt(t, t.kernel, k, l) == EntryAt(s, s.kernel, k, l);
    assert forall l :: EntryAt(t, t.kernel, i, l) == EntryIn(s.tables, KernelTableAddress(i), l) == Zeroed();
  }

  lemma TableKeepsUpper(s: Space, t: Space, i: int, frame: nat)
    requires KernelTableIsIn(s, t, i, frame) && KernelTableAddress(i) !in s.tables
    requires Pointer(s.directories, s.kernel, 0) !in s.home
    ensures UpperKept(s, t) && TablesGrown(s, t)
  {}

  lemma TableKeepsPointers(s: Space, t: Space, i: int, frame: nat)
    requires KernelTableIsIn(s, t, i, frame) && Pointer(s.directories, s.kernel, i) == 0
    requires SharedByAll(s.directories, s.kernel, s.live)
    ensures PointersKept(s, t)
  {
    assert forall e :: e in s.live ==> Pointer(s.directories, e, i) == Pointer(s.directories, s.kernel, i);
  }

  lemma TableIsGrowth(s: Space, t: Space, i: int, frame: nat)
    requires Sound(s) && CanAddKernelTable(s, i, frame) && t == KernelTableAdded(s, i, frame)
    ensures KernelGrown(s, t) && |t.used| == |s.used| + 1
    ensures forall k, l :: k < 256 && EntryAt(t, t.kernel, k, l).present ==>
              EntryAt(s, s.kernel, k, l).present || (k == 0 && l == 256 + i)
    ensures forall k :: Pointer(t.directories, t.kernel, k)
                        == if k == i then KernelTableAddress(i) else Pointer(s.directories, s.kernel, k)
  {
    KernelTableIsThere(s, i, frame);
    assert KernelTables(s.directories, s.kernel, s.tables) by {
      assert Holds(s, Layout);
    }
    assert UpperKept(s, t) && TablesGrown(s, t) by {
      assert Holds(s, Homes);
      TableKeepsUpper(s, t, i, frame);
    }
    assert PointersKept(s, t) by {
      assert Holds(s, Sharing);
      TableKeepsPointers(s, t, i, frame);
    }
    assert !EntryAt(s, s.kernel, 0, 256 + i).present by {
      assert Holds(s, Reserve);
      assert EntryAt(s, s.kernel, 0, 256 + i).present == (Pointer(s.directories, s.kernel, 256 + i - 256) != 0);
    }
    NullIsNoTable(s);
    TablePageOnly(s, t, i, frame);
    assert GrowthCounted(s, t) by {
      PageIsCounted(s, t, 0, 256 + i, frame);
    }
  }

  lemma MissingOfOne(s: Space, p: nat)
    ensures TablesMissing(s, [p]) == if Pointer(s.directories, s.kernel, p / 1024) == 0 then {p / 1024} else {}
  {
    assert forall q :: q in [p] <==> q == p;
    if Pointer(s.directories, s.kernel, p / 1024) == 0 {
      assert p in [p];
    }
  }

  /** A page under a table that is there. */
  lemma PageIsGrownBy(s: Space, t: Space, p: nat, frame: nat)
    requires Sound(s) && 1280 <= p < 0x40000 && Pointer(s.directories, s.kernel, p / 1024) != 0
    requires !PageOf(s, p).present && frame < s.managed && frame !in s.used
    requires t == KernelPageCreated(s, p / 1024, p % 1024, frame)
    ensures GrownBy(s, t, [p]) && SpaceRuns.Reaches(s, t)
  {
    PageIsGrowth(s, t, p / 1024, p % 1024, frame);
    KernelPageCreatedKeeps(s, p / 1024, p % 1024, frame);
    MissingOfOne(s, p);
    assert forall q :: q in [p] <==> q == p;
  }

  /** What a table and then a page under it come to. */
  lemma BothAreGrowth(s: Space, m: Space, t: Space, p: nat)
    requires KernelGrown(s, m) && KernelGrown(m, t) && p < 0x40000
    requires |m.used| == |s.used| + 1 && |t.used| == |m.used| + 1 && Pointer(s.directories, s.kernel, p / 1024) == 0
    requires forall k, l :: k < 256 && EntryAt(m, m.kernel, k, l).present ==>
               EntryAt(s, s.kernel, k, l).present || ReservedPage(1024 * k + l)
    requires forall k, l :: k < 256 && EntryAt(t, t.kernel, k, l).present ==>
               EntryAt(m, m.kernel, k, l).present || (k == p / 1024 && l == p % 1024)
    requires PageOf(t, p).present && Pointer(m.directories, m.kernel, p / 1024) != 0
    requires forall k :: k != p / 1024 ==> Pointer(m.directories, m.kernel, k) == Pointer(s.directories, s.kernel, k)
    requires t.directories == m.directories
    ensures GrownBy(s, t, [p])
  {
    GrownIsTransitive(s, m, t);
    MissingOfOne(s, p);
    assert forall q :: q in [p] <==> q == p;
    assert 1024 * (p / 1024) + p % 1024 == p;
  }

  /** A page with the table it needs. */
  lemma PageAndTableAreGrownBy(s: Space, m: Space, t: Space, p: nat, tableFrame: nat, frame: nat)
    requires Sound(s) && 1280 <= p < 0x40000 && CanAddKernelTable(s, p / 1024, tableFrame)
    requires m == KernelTableAdded(s, p / 1024, tableFrame)
    requires frame < s.managed && frame !in s.used && frame != tableFrame
    requires t == KernelPageCreated(m, p / 1024, p % 1024, frame)
    ensures GrownBy(s, t, [p]) && SpaceRuns.Reaches(s, t)
  {
    KernelTableIsThere(s, p / 1024, tableFrame);
    assert SpaceRuns.Reaches(s, t) by {
      KernelPageCreatedKeeps(m, p / 1024, p % 1024, frame);
      SpaceRuns.OneStep(s, SpaceRuns.AddKernelTable(p / 1024, tableFrame));
      SpaceRuns.ReachesOn(s, m, t);
    }
    assert GrownBy(s, t, [p]) by {
      TableIsGrowth(s, m, p / 1024, tableFrame);
      PageIsGrowth(m, t, p / 1024, p % 1024, frame);
      BothAreGrowth(s, m, t, p);
    }
  }

  lemma NothingIsGrown(s: Space)
    ensures GrownBy(s, s, [])
  {
    assert TablesMissing(s, []) == {};
  }

  /** The address is at hand once the heap has grown. */
  lemma AddressAfterGrowth(s: Space, t: Space, a: int, pages: seq<nat>)
    requires GrownBy(s, t, pages) && UnusedAddress(s, a) && (EntryOf(s, a).present || a / 4096 in pages)
    ensures FromHeap(t, a)
  {
    assert EntryOf(s, a).present ==> EntryOf(t, a) == EntryOf(s, a);
    assert a / 4096 in pages ==> PageOf(t, a / 4096).present;
  }

  /** With no table missing the kernel's tables are the same afterwards. */
  lemma NoTableMade(s: Space, t: Space, pages: seq<nat>)
    requires GrownBy(s, t, pages) && TablesMissing(s, pages) == {}
    ensures SameTables(s, t)
  {
    forall k | 0 <= k < 256 ensures Pointer(t.directories, t.kernel, k) == Pointer(s.directories, s.kernel, k) {
      var p: nat := 1024 * k;
      assert p / 1024 == k;
    }
  }

  /** The kernel has the same tables below 1 GB. */
  ghost predicate SameTables(s: Space, t: Space) {
    forall k {:trigger Pointer(t.directories, t.kernel, k)} :: 0 <= k < 256 ==>
      Pointer(t.directories, t.kernel, k) == Pointer(s.directories, s.kernel, k)
  }

  /* Consecutive pages, as the heap grows. */

  function PagesFrom(p: nat, n: nat): (pages: seq<nat>)
    ensures |pages| == n && forall k :: 0 <= k < n ==> pages[k] == p + k
  {
    seq(n, k requires 0 <= k < n => p + k)
  }

  lemma InPagesFrom(p: nat, n: nat, q: nat)
    ensures q in PagesFrom(p, n) <==> p <= q < p + n
  {
    if p <= q < p + n {
      assert PagesFrom(p, n)[q - p] == q;
    }
  }

  lemma PagesFromJoin(p: nat, n: nat, more: nat)
    ensures PagesFrom(p, n) + PagesFrom(p + n, more) == PagesFrom(p, n + more)
  {}

  lemma PagesFromAreGrowable(s: Space, p: nat, n: nat)
    requires 1280 <= p && p + n <= 0x40000 && forall q: nat :: p <= q < p + n ==> !PageOf(s, q).present
    ensures Growable(s, PagesFrom(p, n))
  {
    forall q | q in PagesFrom(p, n) ensures 1280 <= q < 0x40000 && !PageOf(s, q).present {
      InPagesFrom(p, n, q);
    }
  }
}

/** The address spaces that boot leaves, and the first process (src/paging.c, src/kernel.c, src/process.c). */
module Boot {
  import Bitmap
  import opened PageTables
  import opened SpaceSteps
  import SpaceRuns
  import opened KernelGrowth
  import opened PageCreation
  import opened Cleaning
  import opened Cloning
  import opened CloneSteps
  import opened CloneRuns
  import opened Forking

  /** 3 GB of frames. */
  const Frames: nat := 0xC0000

  /** The tables boot makes: 0 and 1 for the pages of the others, and those of the kernel's stack. */
  predicate BootTable(i: int) {
    i == 0 || i == 1 || 766 <= i <= 768
  }

  /** The pages boot maps, each to the frame of the same number: `code` pages of kernel code and data, the video memory,
      the pages of the tables, and the stack. */
  predicate BootPage(p: int, code: nat) {
    || 0 <= p < code
    || 0xA0 <= p < 0xC0
    || (256 <= p < 1280 && BootTable(p - 256))
    || 0xC0000 - 2047 <= p <= 0xC0000
  }

  function BootEntry(p: int, code: nat): Entry {
    if BootPage(p, code) then KernelEntry(p) else Zeroed()
  }

  function EntriesOf(i: int, code: nat): seq<Entry> {
    seq(1024, j => BootEntry(1024 * i + j, code))
  }

  function BootTables(code: nat): Tables {
    map[KernelTableAddress(0) := EntriesOf(0, code), KernelTableAddress(1) := EntriesOf(1, code),
        KernelTableAddress(766) := EntriesOf(766, code), KernelTableAddress(767) := EntriesOf(767, code),
        KernelTableAddress(768) := EntriesOf(768, code)]
  }

  function BootDirectory(): Directory {
    Directory(seq(1024, i => if BootTable(i) then KernelTableAddress(i) else 0),
              seq(1024, i => if BootTable(i) then KernelTableAddress(i) + 7 else 0))
  }

  /** All frames below 1 MB count as used, and all that are mapped. The frame of the topmost page of the stack is one
      more than the bitmap knows. No process is live yet. */
  function BootSpace(code: nat, kernel: int): Space {
    Space(Frames,
          (set p: nat | p < Frames && (p < 256 || BootPage(p, code))),
          BootTables(code),
          map[kernel := BootDirectory()],
          kernel,
          [],
          (map p: nat | p < Frames && BootPage(p, code) :: Place(KernelTableAddress(p / 1024), p % 1024)),
          map[KernelTableAddress(766) := Place(kernel, 766), KernelTableAddress(767) := Place(kernel, 767),
              KernelTableAddress(768) := Place(kernel, 768)])
  }

  /* Entry by entry. */

  /** The number of the kernel's table at an address. */
  function NumberOf(a: int): int {
    (a - 0x100000) / 0x1000
  }

  predicate BootAddress(a: int) {
    BootTable(NumberOf(a)) && a == KernelTableAddress(NumberOf(a))
  }

  ghost predicate TablesAre(tables: Tables, code: nat) {
    && (forall a {:trigger a in tables} :: a in tables <==> BootAddress(a))
    && (forall a {:trigger tables[a]} :: a in tables ==> |tables[a]| == 1024)
    && (forall a, j {:trigger EntryIn(tables, a, j)} :: EntryIn(tables, a, j) ==
          if BootAddress(a) && 0 <= j < 1024 then BootEntry(1024 * NumberOf(a) + j, code) else Zeroed())
  }

  ghost predicate DirectoriesAre(directories: Directories, kernel: int) {
    && kernel in directories
    && (forall d :: d in directories ==> |directories[d].tables| == 1024 && |directories[d].x86| == 1024)
    && (forall d, i {:trigger Pointer(directories, d, i)} ::
          Pointer(directories, d, i) == if d == kernel && BootTable(i) then KernelTableAddress(i) else 0)
    && (forall d, i {:trigger Register(directories, d, i)} ::
          Register(directories, d, i) == if d == kernel && BootTable(i) then KernelTableAddress(i) + 7 else 0)
  }

  lemma TableAddresses(code: nat)
    ensures forall a :: a in BootTables(code) <==> BootAddress(a)
    ensures forall a :: a in BootTables(code) ==> BootTables(code)[a] == EntriesOf(NumberOf(a), code)
  {
    forall a ensures a in BootTables(code) <==> BootAddress(a) {
      if BootAddress(a) {
        var i := NumberOf(a);
        assert i == 0 || i == 1 || i == 766 || i == 767 || i == 768;
      }
    }
  }

  lemma TablesArePointwise(tables: Tables, code: nat)
    requires forall a :: a in tables <==> BootAddress(a)
    requires forall a :: a in tables ==> tables[a] == EntriesOf(NumberOf(a), code)
    ensures TablesAre(tables, code)
  {}

  lemma DirectoriesArePointwise(kernel: int)
    ensures DirectoriesAre(map[kernel := BootDirectory()], kernel)
  {}

  lemma BootIsOwned(tables: Tables, used: set<nat>, owner: map<nat, Place>, home: map<int, Place>, code: nat,
                    kernel: int)
    requires TablesAre(tables, code)
    requires forall p: nat :: p < Frames && BootPage(p, code) ==>
               p in used && p in owner && owner[p] == Place(KernelTableAddress(p / 1024), p % 1024)
    requires forall a :: a in home ==> home[a].at == kernel
    ensures Entries(tables) && Owned(tables, Frames, used, owner) && ProcessFrames(tables, Frames, home, kernel)
  {
    forall a, j | EntryIn(tables, a, j).present
      ensures EntryIn(tables, a, j).frame < 0x100000
      ensures var f := EntryIn(tables, a, j).frame;
              f < Frames ==> f in used && f in owner && owner[f] == Place(a, j)
    {
      assert (1024 * NumberOf(a) + j) / 1024 == NumberOf(a) && (1024 * NumberOf(a) + j) % 1024 == j;
    }
  }

  lemma BootIsRooted(tables: Tables, directories: Directories, home: map<int, Place>, code: nat, kernel: int)
    requires TablesAre(tables, code) && DirectoriesAre(directories, kernel)
    requires forall i :: BootTable(i) ==>
               if i < 256 then KernelTableAddress(i) !in home
               else KernelTableAddress(i) in home && home[KernelTableAddress(i)] == Place(kernel, i)
    ensures Rooted(directories, tables) && Private(directories, home) && KernelTables(directories, kernel, tables)
  {
    forall i ensures NumberOf(KernelTableAddress(i)) == i {
    }
  }

  lemma BootIsReserved(s: Space, code: nat)
    requires TablesAre(s.tables, code) && DirectoriesAre(s.directories, s.kernel) && code <= 256
    ensures ReservedPages(s)
  {
    assert NumberOf(KernelTableAddress(0)) == 0 && NumberOf(KernelTableAddress(1)) == 1;
    forall j | 256 <= j < 1024
      ensures EntryAt(s, s.kernel, 0, j).present == (Pointer(s.directories, s.kernel, j - 256) != 0)
    {
      assert EntryAt(s, s.kernel, 0, j) == BootEntry(j, code);
    }
    forall j | 0 <= j < 256
      ensures EntryAt(s, s.kernel, 1, j).present == (Pointer(s.directories, s.kernel, j + 768) != 0)
    {
      assert EntryAt(s, s.kernel, 1, j) == BootEntry(1024 + j, code);
    }
  }

  lemma BootIsTranslated(s: Space, code: nat)
    requires TablesAre(s.tables, code) && DirectoriesAre(s.directories, s.kernel)
    ensures Translated(s)
  {
    forall i | BootTable(i)
      ensures Backed(s, KernelTableAddress(i)) && PhysicalAddress(s, KernelTableAddress(i)) == KernelTableAddress(i)
    {
      var p := 256 + i;
      assert KernelTableAddress(i) / 4096 == p && BootTable(p / 1024);
      assert NumberOf(KernelTableAddress(p / 1024)) == p / 1024;
      assert EntryOf(s, KernelTableAddress(i)) == BootEntry(p, code);
    }
  }

  /** The frames in use and their owners, the places of the tables, and nothing live. */
  ghost predicate RestIs(s: Space, code: nat) {
    && s.managed == Frames && s.live == [] && (forall p :: p in s.used ==> p < Frames)
    && (forall p: nat :: p < Frames && BootPage(p, code) ==>
          p in s.used && p in s.owner && s.owner[p] == Place(KernelTableAddress(p / 1024), p % 1024))
    && (forall a :: a in s.home ==> s.home[a].at == s.kernel)
    && (forall i {:trigger KernelTableAddress(i)} :: BootTable(i) ==>
          if i < 256 then KernelTableAddress(i) !in s.home
          else KernelTableAddress(i) in s.home && s.home[KernelTableAddress(i)] == Place(s.kernel, i))
  }

  lemma RestIsPointwise(code: nat, kernel: int)
    ensures RestIs(BootSpace(code, kernel), code)
  {}

  lemma PointwiseIsSound(s: Space, code: nat)
    requires TablesAre(s.tables, code) && DirectoriesAre(s.directories, s.kernel) && RestIs(s, code) && code <= 256
    ensures Sound(s)
  {
    BootIsOwned(s.tables, s.used, s.owner, s.home, code, s.kernel);
    BootIsRooted(s.tables, s.directories, s.home, code, s.kernel);
    BootIsReserved(s, code);
    BootIsTranslated(s, code);
    assert Shaped(s) by {
      assert forall a :: a in s.tables ==> BootAddress(a);
    }
    Fold(s);
  }

  /** Boot establishes the invariant, whatever the size of code and data below 1 MB. */
  lemma BootIsSound(code: nat, kernel: int)
    requires code <= 256
    ensures Sound(BootSpace(code, kernel))
  {
    TableAddresses(code);
    TablesArePointwise(BootTables(code), code);
    DirectoriesArePointwise(kernel);
    RestIsPointwise(code, kernel);
    PointwiseIsSound(BootSpace(code, kernel), code);
  }

  /** What boot leaves, in numbers: page `p` of the kernel is present if and only if it is one of the `code` pages, of
      the video memory, of the pages of the five tables, or of the stack; it is writable, for the kernel only, and in
      the frame of its own number; and a frame is in use if and only if it lies below 1 MB or backs such a page. */
  lemma BootInNumbers(code: nat, kernel: int, p: nat)
    requires code <= 256 && p < 1024 * 1024
    ensures var s, e := BootSpace(code, kernel), EntryAt(BootSpace(code, kernel), kernel, p / 1024, p % 1024);
            var mapped := || p < code || 0xA0 <= p < 0xC0 || p == 256 || p == 257 || p == 1022 || p == 1023 || p == 1024
                          || 0xBF801 <= p <= 0xC0000;
            && e == (if mapped then Entry(true, true, false, 0, p) else Entry(false, false, false, 0, 0))
            && s.managed == 0xC0000 && (p in s.used <==> p < 0xC0000 && (p < 0x100 || mapped))
  {
    TableAddresses(code);
    TablesArePointwise(BootTables(code), code);
    DirectoriesArePointwise(kernel);
    assert NumberOf(KernelTableAddress(p / 1024)) == p / 1024;
    assert 1024 * (p / 1024) + p % 1024 == p;
    assert 0 !in BootTables(code);
  }

  /* From boot to the first process. */

  lemma {:induction false} RangeCount(lo: nat, n: nat) returns (all: set<nat>)
    ensures |all| == n && forall f: nat :: f in all <==> lo <= f < lo + n
    decreases n
  {
    if n == 0 {
      all := {};
    } else {
      all := RangeCount(lo, n - 1);
      all := all + {lo + n - 1};
    }
  }

  lemma SubsetCount(some: set<nat>, all: set<nat>)
    requires some <= all
    ensures |some| <= |all|
  {
    assert all == some + (all - some);
  }

  lemma BootFrames(code: nat, kernel: int)
    requires code <= 256
    ensures |BootSpace(code, kernel).used| <= 3328
  {
    var low := RangeCount(0, 1280);
    var high := RangeCount(0xC0000 - 2048, 2048);
    SubsetCount(BootSpace(code, kernel).used, low + high);
  }

  /** What is known of the kernel's half before the heap is made. */
  lemma BootBelow(code: nat, kernel: int)
    requires code <= 256
    ensures var s := BootSpace(code, kernel);
            && Sound(s) && s.managed == Frames && s.live == [] && s.kernel == kernel && s.directories.Keys == {kernel}
            && (forall a :: a in s.tables ==> a < 0x50_0000)
            && (forall p: nat :: 1280 <= p < 2048 ==> !PageOf(s, p).present)
            && (forall i :: 0 <= i < 1024 ==> (Pointer(s.directories, s.kernel, i) != 0 <==> BootTable(i)))
  {
    BootIsSound(code, kernel);
    TableAddresses(code);
    TablesArePointwise(BootTables(code), code);
    DirectoriesArePointwise(kernel);
    assert NumberOf(KernelTableAddress(1)) == 1;
  }

  /** The pages of the heap and of its index, up to the end of the kernel's table 1. */
  lemma HeapCanGrow(code: nat, kernel: int) returns (h: Space)
    requires code <= 256
    ensures var boot := BootSpace(code, kernel);
            Sound(h) && SpaceRuns.Reaches(boot, h) && GrownBy(boot, h, PagesFrom(1280, 768))
    ensures |h.used| <= 3328 + 768
    ensures forall k :: 0 <= k < 256 ==> (Pointer(h.directories, kernel, k) == 0 <==> k >= 2)
  {
    var boot, pages := BootSpace(code, kernel), PagesFrom(1280, 768);
    BootBelow(code, kernel);
    BootFrames(code, kernel);
    PagesFromAreGrowable(boot, 1280, 768);
    assert TablesMissing(boot, pages) == {} by {
      assert forall p :: p in pages ==> p / 1024 == 1;
    }
    h := PagesCanGrow(boot, pages);
    NoTableMade(boot, h, pages);
  }

  /** The supply for the first process: its directory and its three tables lie in the heap's first pages. */
  function FirstSupply(): CloneSupply {
    CloneSupply(Supply(0x52_0000, []), seq(1024, i => Supply(0x52_3000 + 0x2000 * (i - 766), [])))
  }

  lemma {:induction false} NoPagesWithout(s: Space, source: int, supply: CloneSupply, n: int)
    requires forall i :: 0 <= i < |supply.tables| ==> supply.tables[i].pages == []
    ensures RestPages(s, source, supply, n) == []
    decreases 1024 - n
  {
    if n < 1024 {
      NoPagesWithout(s, source, supply, n + 1);
    }
  }

  /** Above 1 GB the space has at most three tables, those of the stack, in this directory. */
  ghost predicate StackTables(s: Space, d: int) {
    forall i :: 256 <= i < 1024 ==> (Pointer(s.directories, d, i) != 0 <==> BootTable(i))
  }

  lemma {:induction false} AtMostAll(s: Space, d: int, i: int, j: int)
    requires 0 <= j <= 1024
    ensures PresentUnder(s, d, i, j) <= 1024 - j
    decreases 1024 - j
  {
    if j < 1024 {
      AtMostAll(s, d, i, j + 1);
    }
  }

  lemma {:induction false} FewPresent(s: Space, d: int, n: int)
    requires StackTables(s, d) && 256 <= n <= 1024
    ensures PresentFrom(s, d, n) <= 1024 * (if n <= 766 then 3 else if n <= 769 then 769 - n else 0)
    decreases 1024 - n
  {
    if n < 1024 {
      FewPresent(s, d, n + 1);
      AtMostAll(s, d, n, 0);
    }
  }

  lemma FirstAddress(h: Space, source: int, supply: CloneSupply, n: int, a: int, p: nat)
    requires a == 4096 * p && 1312 <= p < 2048 && PageOf(h, p).present
    requires forall b :: b in h.tables || b in h.directories ==> b < 0x50_0000
    ensures AddressSupplied(h, [], source, supply, n, a)
  {
    assert a / 4096 == p;
  }

  lemma FirstIsSupplied(h: Space, m: seq<Page>, kernel: int)
    requires Sound(h) && |m| == 0x100000 && h.directories.Keys == {kernel} && kernel < 0x50_0000
    requires forall a :: a in h.tables ==> a < 0x50_0000
    requires forall p: nat :: 1280 <= p < 2048 ==> PageOf(h, p).present
    requires StackTables(h, kernel)
    ensures CanClone(h, m, kernel, 0x52_0000, FirstSupply()) && AllPages(h, kernel, FirstSupply()) == []
  {
    var supply := FirstSupply();
    NoPagesWithout(h, kernel, supply, 256);
    var none: seq<nat> := [];
    assert none + none == none;
    FirstAddress(h, kernel, supply, 256, 0x52_0000, 0x520);
    forall i | 256 <= i < 1024 && Pointer(h.directories, kernel, i) != 0
      ensures AddressSupplied(h, [], kernel, supply, i + 1, supply.tables[i].address)
      ensures supply.tables[i].address != supply.directory.address
    {
      assert BootTable(i);
      FirstAddress(h, kernel, supply, i + 1, supply.tables[i].address, 0x523 + 2 * (i - 766));
    }
  }

  /** Where the copies of the stack's tables lie. */
  predicate IsFirstTable(a: int) {
    a == 0x52_3000 || a == 0x52_5000 || a == 0x52_7000
  }

  /** The first process: its directory at 0x520000 is a clone of the kernel's and it alone is live; the heap ends at the
      end of the kernel's table 1, and table 2 is missing. */
  ghost predicate FirstProcess(s: Space, code: nat, kernel: int) {
    && Sound(s) && SpaceRuns.Reaches(BootSpace(code, kernel), s) && s.managed == Frames && s.kernel == kernel
    && s.live == [0x52_0000] && s.directories.Keys == {kernel, 0x52_0000}
    && (forall a :: a in s.tables ==> a < 0x50_0000 || IsFirstTable(a))
    && HeapEndsAt(s, 2048) && (forall k :: 0 <= k < 256 ==> (Pointer(s.directories, kernel, k) == 0 <==> k >= 2))
    && StackTables(s, 0x52_0000) && |s.used| <= 10000
    && (forall i, j :: 256 <= i < 1024 && 0 <= j < 1024 ==>
          EntryAt(s, 0x52_0000, i, j).present == EntryAt(BootSpace(code, kernel), kernel, i, j).present)
  }

  /** Of the kernel's pages from 5 MB to 1 GB those below number `top` are present. */
  ghost predicate HeapEndsAt(s: Space, top: nat) {
    forall p: nat :: 1280 <= p < 0x40000 ==> (PageOf(s, p).present <==> p < top)
  }

  lemma GrownHeap(code: nat, kernel: int, h: Space)
    requires code <= 256 && kernel < 0x50_0000 && Sound(h)
    requires GrownBy(BootSpace(code, kernel), h, PagesFrom(1280, 768))
    ensures h.directories.Keys == {kernel} && h.kernel == kernel && h.managed == Frames && h.live == []
    ensures (forall a :: a in h.tables ==> a < 0x50_0000) && StackTables(h, kernel)
    ensures forall p: nat :: 1280 <= p < 2048 ==> PageOf(h, p).present
    ensures forall i, j :: 256 <= i < 1024 ==>
              EntryAt(h, kernel, i, j) == EntryAt(BootSpace(code, kernel), kernel, i, j)
  {
    BootBelow(code, kernel);
    forall p: nat | 1280 <= p < 2048 ensures PageOf(h, p).present {
      InPagesFrom(1280, 768, p);
    }
    UpperEntriesKept(BootSpace(code, kernel), h);
  }

  /** The heap as it was while the clone was made of what it already had. */
  lemma HeapStays(h: Space, t: Space)
    requires KernelKept(h, t) && SameTables(h, t) && Sound(t)
    requires forall p: nat :: 1280 <= p < 2048 ==> PageOf(h, p).present
    requires forall k :: 0 <= k < 256 ==> (Pointer(h.directories, h.kernel, k) == 0 <==> k >= 2)
    ensures HeapEndsAt(t, 2048)
  {
    NullIsNoTable(t);
    forall p: nat | 1280 <= p < 0x40000 ensures PageOf(t, p).present <==> p < 2048 {
      if p < 2048 {
        assert PageOf(h, p).present;
      } else {
        assert Pointer(t.directories, t.kernel, p / 1024) == 0;
      }
    }
  }

  lemma ClonedFirst(boot: Space, h: Space, m: seq<Page>, t: Space, n: seq<Page>, d: int)
    requires Sound(h) && Sound(t) && Cloned(h, m, t, n, h.kernel, d) && d != h.kernel
    requires SpaceRuns.Reaches(boot, h) && SpaceRuns.Reaches(h, t) && h.live == []
    ensures var s := t.(live := [d]);
            Sound(s) && SpaceRuns.Reaches(boot, s)
    ensures forall i, j :: 256 <= i < 1024 && 0 <= j < 1024 ==>
              EntryAt(t, d, i, j).present == EntryAt(h, h.kernel, i, j).present
    ensures StackTables(h, h.kernel) ==> StackTables(t, d)
  {
    CloneHasTheKernelHalf(h, m, t, n, h.kernel, d);
    SpaceRuns.OneStep(t, SpaceRuns.GoLive(d));
    assert t.live + [d] == [d];
    SpaceRuns.ReachesOn(boot, h, t);
    SpaceRuns.ReachesOn(boot, t, t.(live := [d]));
    forall i, j | 256 <= i < 1024 && 0 <= j < 1024
      ensures EntryAt(t, d, i, j).present == EntryAt(h, h.kernel, i, j).present
    {
      assert Copied(h, m, t, n, EntryAt(h, h.kernel, i, j), EntryAt(t, d, i, j));
    }
  }

  lemma FirstTables(h: Space, t: Space, kernel: int)
    requires TablesAreSupplied(h, t, kernel, 1024, FirstSupply()) && StackTables(h, kernel)
    requires forall a :: a in h.tables ==> a < 0x50_0000
    ensures forall a :: a in t.tables ==> a < 0x50_0000 || IsFirstTable(a)
  {
    forall a | a in t.tables ensures a < 0x50_0000 || IsFirstTable(a) {
      if a !in h.tables && a >= 0x50_0000 {
        var i :| 256 <= i < 1024 && Pointer(h.directories, kernel, i) != 0 && a == FirstSupply().tables[i].address;
      }
    }
  }

  /** The clone of the kernel's directory, from the heap there is. */
  lemma FirstIsCloned(h: Space, m: seq<Page>, kernel: int) returns (t: Space, n: seq<Page>)
    requires Sound(h) && h.managed == Frames && h.kernel == kernel && |h.used| <= 3328 + 768
    requires StackTables(h, kernel) && CanClone(h, m, kernel, 0x52_0000, FirstSupply())
    requires AllPages(h, kernel, FirstSupply()) == [] && forall a :: a in h.tables ==> a < 0x50_0000
    ensures Sound(t) && SpaceRuns.Reaches(h, t) && Cloned(h, m, t, n, kernel, 0x52_0000) && SameTables(h, t)
    ensures |t.used| <= 10000 && forall a :: a in t.tables ==> a < 0x50_0000 || IsFirstTable(a)
  {
    FewPresent(h, kernel, 256);
    assert TablesMissing(h, []) == {};
    t, n := CloneCanBeMade(h, m, kernel, 0x52_0000, FirstSupply());
    FirstTables(h, t, kernel);
  }

  /** Such a process is reached from boot. */
  lemma FirstIsReached(code: nat, kernel: int) returns (s: Space)
    requires code <= 256 && kernel < 0x50_0000
    ensures FirstProcess(s, code, kernel)
  {
    var boot := BootSpace(code, kernel);
    var h := HeapCanGrow(code, kernel);
    GrownHeap(code, kernel, h);
    var m: seq<Page> := seq(0x10_0000, _ => []);
    FirstIsSupplied(h, m, kernel);
    var t, n := FirstIsCloned(h, m, kernel);
    s := t.(live := [0x52_0000]);
    FirstIsThere(boot, h, m, t, n, s, kernel);
    assert forall i, j :: 256 <= i < 1024 && 0 <= j < 1024 ==>
        EntryAt(s, 0x52_0000, i, j).present == EntryAt(boot, kernel, i, j).present;
  }

  lemma FirstIsThere(boot: Space, h: Space, m: seq<Page>, t: Space, n: seq<Page>, s: Space, kernel: int)
    requires Sound(h) && Sound(t) && Cloned(h, m, t, n, kernel, 0x52_0000) && SameTables(h, t)
    requires SpaceRuns.Reaches(boot, h) && SpaceRuns.Reaches(h, t) && h.live == [] && h.kernel == kernel
    requires h.directories.Keys == {kernel} && kernel < 0x50_0000 && StackTables(h, kernel)
    requires forall p: nat :: 1280 <= p < 2048 ==> PageOf(h, p).present
    requires forall k :: 0 <= k < 256 ==> (Pointer(h.directories, kernel, k) == 0 <==> k >= 2)
    requires s == t.(live := [0x52_0000])
    ensures Sound(s) && SpaceRuns.Reaches(boot, s) && s.managed == h.managed && s.kernel == kernel
    ensures s.directories.Keys == {kernel, 0x52_0000} && HeapEndsAt(s, 2048) && StackTables(s, 0x52_0000)
    ensures forall k :: 0 <= k < 256 ==> (Pointer(s.directories, kernel, k) == 0 <==> k >= 2)
    ensures forall i, j :: 256 <= i < 1024 && 0 <= j < 1024 ==>
              EntryAt(s, 0x52_0000, i, j).present == EntryAt(h, kernel, i, j).present
  {
    ClonedFirst(boot, h, m, t, n, 0x52_0000);
    HeapStays(h, t);
    assert HeapEndsAt(s, 2048) by {
      assert forall p :: PageOf(s, p) == PageOf(t, p);
    }
    assert forall i, j :: EntryAt(s, 0x52_0000, i, j) == EntryAt(t, 0x52_0000, i, j);
  }
}

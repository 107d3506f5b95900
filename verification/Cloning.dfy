/** Copying an address space for a new process (src/paging.c): above 1 GB page by page, below by sharing. */
module Cloning {
  import opened PageTables
  import opened SpaceSteps
  import opened Cleaning
  import opened KernelGrowth
  import SpaceRuns

  /** The bytes of a frame. */
  type Page = seq<int>

  /** Frames that were in use, and those the bitmap does not know, keep their bytes. */
  ghost predicate MemoryKept(s: Space, m: seq<Page>, n: seq<Page>) {
    |n| == |m| && forall f {:trigger n[f]} :: 0 <= f < |m| && (f in s.used || f >= s.managed) ==> n[f] == m[f]
  }

  lemma StillKept(s0: Space, m0: seq<Page>, s: Space, m: seq<Page>, n: seq<Page>)
    requires MemoryKept(s0, m0, m) && MemoryKept(s, m, n) && s0.used <= s.used && s0.managed == s.managed
    ensures MemoryKept(s0, m0, n)
  {
    forall f | 0 <= f < |m0| && (f in s0.used || f >= s0.managed) ensures n[f] == m0[f] {
      assert f in s0.used ==> f in s.used;
      assert m[f] == m0[f];
    }
  }

  /** `c` is the copy of entry `e`: present when `e` is, in a frame of its own that was free in `s0` and holds the
      same bytes, open to user mode, and otherwise alike. */
  ghost predicate Copied(s0: Space, m0: seq<Page>, s: Space, m: seq<Page>, e: Entry, c: Entry) {
    && |m| == |m0| == 0x100000
    && if e.present then
         && c.present && c == e.(frame := c.frame, userMode := true)
         && c.frame !in s0.used && c.frame in s.used && c.frame < s.managed
         && e.frame < 0x100000 && c.frame < 0x100000 && m[c.frame] == m0[e.frame]
       else !c.present
  }

  lemma CopiedStays(s0: Space, m0: seq<Page>, s: Space, m: seq<Page>, t: Space, n: seq<Page>, e: Entry, c: Entry)
    requires Copied(s0, m0, s, m, e, c) && MemoryKept(s, m, n) && s.used <= t.used && t.managed == s.managed
    ensures Copied(s0, m0, t, n, e, c)
  {}

  /** What cloning leaves as it was: all tables above 1 GB, all the kernel has mapped below, every pointer that was set,
      the bits that were set, and the bytes. The kernel's half may grow meanwhile. */
  ghost predicate Untouched(s0: Space, m0: seq<Page>, s: Space, m: seq<Page>, d: int) {
    && s.managed == s0.managed && s.live == s0.live && KernelKept(s0, s)
    && s0.tables.Keys <= s.tables.Keys && UpperKept(s0, s)
    && (forall e, k {:trigger Pointer(s.directories, e, k)} {:trigger Register(s.directories, e, k)} :: e != d ==>
          Pointer(s0.directories, e, k) != 0 || k >= 256 || (e !in s0.live && e != s0.kernel) ==>
            && Pointer(s.directories, e, k) == Pointer(s0.directories, e, k)
            && Register(s.directories, e, k) == Register(s0.directories, e, k))
    && s.directories.Keys == s0.directories.Keys + {d}
    && s0.used <= s.used && MemoryKept(s0, m0, m)
  }

  /** Table `i` of the source is copied up to entry `n` into the new table `a`. */
  ghost predicate TableCopied(s0: Space, m0: seq<Page>, s: Space, m: seq<Page>, source: int, i: int, a: int, n: int) {
    && (forall j {:trigger EntryIn(s.tables, a, j)} :: 0 <= j < n ==>
          Copied(s0, m0, s, m, EntryAt(s0, source, i, j), EntryIn(s.tables, a, j)))
    && (forall j {:trigger EntryIn(s.tables, a, j)} :: j >= n ==> EntryIn(s.tables, a, j) == Zeroed())
  }

  /** The tables of the source from 1 GB up to number `n` are copied into directory `d`. */
  ghost predicate UpperCopied(s0: Space, m0: seq<Page>, s: Space, m: seq<Page>, source: int, d: int, n: int) {
    && (forall i, j {:trigger EntryAt(s, d, i, j)} :: 256 <= i < n && 0 <= j < 1024 ==>
          Copied(s0, m0, s, m, EntryAt(s0, source, i, j), EntryAt(s, d, i, j)))
    && (forall i {:trigger Pointer(s.directories, d, i)} :: 256 <= i < n ==>
          (Pointer(s.directories, d, i) == 0) == (Pointer(s0.directories, source, i) == 0))
  }

  /** Outside the tables from 1 GB up to number `n` directory `d` is blank. */
  ghost predicate BlankOutside(directories: Directories, d: int, n: int) {
    forall i {:trigger Pointer(directories, d, i)} {:trigger Register(directories, d, i)} ::
      i < 256 || i >= n ==> Pointer(directories, d, i) == 0 && Register(directories, d, i) == 0
  }

  ghost predicate TablesCopied(s0: Space, m0: seq<Page>, s: Space, m: seq<Page>, source: int, d: int, n: int) {
    UpperCopied(s0, m0, s, m, source, d, n) && BlankOutside(s.directories, d, n)
  }

  /** A frame is found for entry `j` and its bytes are copied. */
  function CopyEntry(s: Space, a: int, j: int, e: Entry, frame: nat): Space {
    MapFrame(s, a, j, e.(frame := frame, userMode := true))
  }

  lemma EntryCopied(s0: Space, m0: seq<Page>, s: Space, m: seq<Page>, t: Space, n: seq<Page>, source: int, i: int,
                    a: int, j: int, frame: nat)
    requires TableCopied(s0, m0, s, m, source, i, a, j) && Entries(s0.tables) && s0.used <= s.used
    requires MemoryKept(s0, m0, m) && |m| == 0x100000 && s0.managed == s.managed
    requires var e := EntryAt(s0, source, i, j);
             && e.present && a in s.tables && 0 <= j < |s.tables[a]|
             && frame < s.managed <= 0x100000 && frame !in s.used
             && t == CopyEntry(s, a, j, e, frame) && n == m[frame := m[e.frame]]
             && (e.frame < s0.managed ==> e.frame in s0.used)
    ensures TableCopied(s0, m0, t, n, source, i, a, j + 1) && MemoryKept(s, m, n)
  {
    var e := EntryAt(s0, source, i, j);
    EntriesAfterMap(s, t, a, j, e.(frame := frame, userMode := true));
    forall k | 0 <= k < j + 1 ensures Copied(s0, m0, t, n, EntryAt(s0, source, i, k), EntryIn(t.tables, a, k)) {
      if k < j {
        CopiedStays(s0, m0, s, m, t, n, EntryAt(s0, source, i, k), EntryIn(s.tables, a, k));
      }
    }
  }

  lemma NoEntryCopied(s0: Space, m0: seq<Page>, s: Space, m: seq<Page>, source: int, i: int, a: int, j: int)
    requires TableCopied(s0, m0, s, m, source, i, a, j) && !EntryAt(s0, source, i, j).present
    requires |m| == |m0| == 0x100000
    ensures TableCopied(s0, m0, s, m, source, i, a, j + 1)
  {}

  lemma {:induction false} SameFramesBelow(before: Tables, after: Tables, a: int, i: int, n: int, spared: bool)
    requires forall k :: 0 <= k < n ==> EntryIn(after, a, k) == EntryIn(before, a, k)
    ensures TableFrames(after, a, i, n, spared) == TableFrames(before, a, i, n, spared)
    decreases n
  {
    if n > 0 {
      SameFramesBelow(before, after, a, i, n - 1, spared);
    }
  }

  lemma {:induction false} SameDirectoryFrames(s: Space, t: Space, d: int, n: int, spared: bool)
    requires forall i, j :: 256 <= i < n ==> EntryAt(t, d, i, j) == EntryAt(s, d, i, j)
    ensures DirectoryFrames(t, d, n, spared) == DirectoryFrames(s, d, n, spared)
    decreases n
  {
    if n > 256 {
      SameDirectoryFrames(s, t, d, n - 1, spared);
      SameTableFrames(s, t, d, n - 1, 1024, spared);
    }
  }

  /** One more frame taken is one more frame of the table. */
  lemma FrameCounted(s: Space, t: Space, used: set<nat>, a: int, i: int, j: int, e: Entry, frame: nat)
    requires a in s.tables && 0 <= j < |s.tables[a]| && e.present && t == CopyEntry(s, a, j, e, frame)
    requires s.used == used + TableFrames(s.tables, a, i, j, false)
    ensures t.used == used + TableFrames(t.tables, a, i, j + 1, false)
  {
    EntriesAfterMap(s, t, a, j, e.(frame := frame, userMode := true));
    SameFramesBelow(s.tables, t.tables, a, i, j, false);
  }

  /** Work on a table that is not entered yet leaves the tables copied before alone. */
  lemma TablesStayCopied(s0: Space, m0: seq<Page>, s: Space, m: seq<Page>, t: Space, n: seq<Page>, source: int,
                         d: int, a: int, i: int)
    requires TablesCopied(s0, m0, s, m, source, d, i)
    requires MemoryKept(s, m, n) && s.used <= t.used && t.managed == s.managed && t.directories == s.directories
    requires forall k :: Pointer(s.directories, d, k) != a
    requires forall b, k :: b != a ==> EntryIn(t.tables, b, k) == EntryIn(s.tables, b, k)
    ensures TablesCopied(s0, m0, t, n, source, d, i)
    ensures forall k, j :: EntryAt(t, d, k, j) == EntryAt(s, d, k, j)
  {
    forall k, j | 256 <= k < i && 0 <= j < 1024
      ensures Copied(s0, m0, t, n, EntryAt(s0, source, k, j), EntryAt(t, d, k, j))
    {
      CopiedStays(s0, m0, s, m, t, n, EntryAt(s0, source, k, j), EntryAt(s, d, k, j));
    }
  }

  /** The finished table goes into its place. */
  lemma TableEntered(s0: Space, m0: seq<Page>, s: Space, m: seq<Page>, t: Space, source: int, d: int, i: int, a: int)
    requires TablesCopied(s0, m0, s, m, source, d, i) && TableCopied(s0, m0, s, m, source, i, a, 1024)
    requires 256 <= i < 1024 && a != 0 && Pointer(s0.directories, source, i) != 0
    requires d in s.directories && |s.directories[d].tables| == 1024 && |s.directories[d].x86| == 1024
    requires t == Attach(s, d, i, a)
    ensures TablesCopied(s0, m0, t, m, source, d, i + 1)
    ensures forall k, j :: k != i ==> EntryAt(t, d, k, j) == EntryAt(s, d, k, j)
  {
    PointersAfterEnter(s.directories, t.directories, d, i, a, PhysicalAddress(s, a) + 7);
    forall k, j | 256 <= k < i + 1 && 0 <= j < 1024
      ensures Copied(s0, m0, t, m, EntryAt(s0, source, k, j), EntryAt(t, d, k, j))
    {
      if k == i {
        assert Copied(s0, m0, s, m, EntryAt(s0, source, i, j), EntryIn(s.tables, a, j));
      } else {
        assert Copied(s0, m0, s, m, EntryAt(s0, source, k, j), EntryAt(s, d, k, j));
      }
    }
  }

  /** A table the source does not have is not made. */
  lemma TableSkipped(s0: Space, m0: seq<Page>, s: Space, m: seq<Page>, source: int, d: int, i: int)
    requires TablesCopied(s0, m0, s, m, source, d, i) && 256 <= i < 1024 && Pointer(s0.directories, source, i) == 0
    requires 0 !in s0.tables && 0 !in s.tables && |m| == |m0| == 0x100000
    ensures TablesCopied(s0, m0, s, m, source, d, i + 1)
  {
    forall k, j | 256 <= k < i + 1 && 0 <= j < 1024
      ensures Copied(s0, m0, s, m, EntryAt(s0, source, k, j), EntryAt(s, d, k, j))
    {
      if k == i {
        assert EntryAt(s0, source, i, j) == Zeroed() && EntryAt(s, d, i, j) == Zeroed();
      }
    }
  }

  /** The frames newly in use are those of the copies below table `n`, and those of the kernel's new pages. */
  ghost predicate FramesCounted(s0: Space, s: Space, d: int, n: int) {
    forall f: nat :: f in s.used <==> f in s0.used || f in DirectoryFrames(s, d, n, false) || GrowthFrame(s0, s, f)
  }

  /** The kernel's half is as it was. */
  ghost predicate KernelStill(s: Space, t: Space) {
    && t.kernel == s.kernel
    && (forall k {:trigger Pointer(t.directories, t.kernel, k)} ::
          Pointer(t.directories, t.kernel, k) == Pointer(s.directories, s.kernel, k))
    && (forall i, j {:trigger EntryAt(t, t.kernel, i, j)} :: i < 256 ==>
          EntryAt(t, t.kernel, i, j) == EntryAt(s, s.kernel, i, j))
  }

  lemma StillTheSameGrowth(s0: Space, s: Space, t: Space)
    requires KernelStill(s, t)
    ensures forall f :: GrowthFrame(s0, t, f) <==> GrowthFrame(s0, s, f)
  {
    forall f ensures GrowthFrame(s0, t, f) <==> GrowthFrame(s0, s, f) {
      if GrowthFrame(s0, s, f) {
        var i, j :| 0 <= i < 256 && EntryAt(s, s.kernel, i, j).present && EntryAt(s, s.kernel, i, j).frame == f
                    && !EntryAt(s0, s0.kernel, i, j).present;
        assert EntryAt(t, t.kernel, i, j) == EntryAt(s, s.kernel, i, j);
      }
    }
  }

  /** The frames of a further table are the frames taken for it. */
  lemma TableCounted(s0: Space, s: Space, t: Space, d: int, i: int, a: int)
    requires FramesCounted(s0, s, d, i) && 256 <= i && KernelStill(s, t)
    requires t.used == s.used + TableFrames(t.tables, a, i, 1024, false) && Pointer(t.directories, d, i) == a
    requires forall k, j :: k < i ==> EntryAt(t, d, k, j) == EntryAt(s, d, k, j)
    ensures FramesCounted(s0, t, d, i + 1)
  {
    SameDirectoryFrames(s, t, d, i, false);
    StillTheSameGrowth(s0, s, t);
  }

  /* What the kernel's heap supplies. */

  /** For the new directory, and for the copy of table number i of the source, if it has one. */
  datatype CloneSupply = CloneSupply(directory: Supply, tables: seq<Supply>)

  function PagesOfTable(s: Space, source: int, supply: CloneSupply, i: int): seq<nat> {
    if 0 <= i < |supply.tables| && Pointer(s.directories, source, i) != 0 then supply.tables[i].pages else []
  }

  /** The pages the heap grows by for the tables from number `n` on. */
  function RestPages(s: Space, source: int, supply: CloneSupply, n: int): seq<nat>
    decreases 1024 - n, source
  {
    if n >= 1024 then [] else PagesOfTable(s, source, supply, n) + RestPages(s, source, supply, n + 1)
  }

  /** All pages the heap grows by during the clone, in that order. */
  function AllPages(s: Space, source: int, supply: CloneSupply): seq<nat> {
    supply.directory.pages + RestPages(s, source, supply, 256)
  }

  /** Page `p` is supplied before the table of number `n` is asked for. */
  ghost predicate PageSupplied(s: Space, source: int, supply: CloneSupply, n: int, p: nat) {
    p in supply.directory.pages || exists k :: 256 <= k < n && p in PagesOfTable(s, source, supply, k)
  }

  /** An address of the heap that is not in use, in a page that is present or supplied by then. */
  ghost predicate AddressSupplied(s: Space, before: seq<nat>, source: int, supply: CloneSupply, n: int, a: int) {
    && UnusedAddress(s, a)
    && (EntryOf(s, a).present || a / 4096 in before || PageSupplied(s, source, supply, n, a / 4096))
  }

  /** What the heap promises: pages it can grow by, and addresses of its own for the directory and for each table. It
      has grown by the pages `before` when the clone begins. */
  ghost predicate Supplied(s: Space, before: seq<nat>, source: int, supply: CloneSupply) {
    && |supply.tables| == 1024 && Growable(s, before + AllPages(s, source, supply))
    && AddressSupplied(s, before, source, supply, 256, supply.directory.address)
    && (forall i {:trigger supply.tables[i]} :: 256 <= i < 1024 && Pointer(s.directories, source, i) != 0 ==>
          && AddressSupplied(s, before, source, supply, i + 1, supply.tables[i].address)
          && supply.tables[i].address != supply.directory.address)
    && (forall i, k {:trigger supply.tables[i], supply.tables[k]} ::
          256 <= i < k < 1024 && Pointer(s.directories, source, i) != 0 && Pointer(s.directories, source, k) != 0 ==>
          supply.tables[i].address != supply.tables[k].address)
  }

  /* The frames it takes. */

  /** How many pages of the source are present under table `i` from number `j` on. */
  function PresentUnder(s: Space, source: int, i: int, j: int): nat
    decreases 1024 - j, i
  {
    if j >= 1024 then 0 else (if EntryAt(s, source, i, j).present then 1 else 0) + PresentUnder(s, source, i, j + 1)
  }

  /** How many are present under the tables from number `n` on. */
  function PresentFrom(s: Space, source: int, n: int): nat
    decreases 1024 - n, source
  {
    if n >= 1024 then 0
    else
      (if Pointer(s.directories, source, n) == 0 then 0 else PresentUnder(s, source, n, 0))
      + PresentFrom(s, source, n + 1)
  }

  /** The frames a clone takes: one for each present page of the source above 1 GB, one for each page the heap grows by,
      and one for each table of the kernel that these need. */
  function FramesNeeded(s: Space, source: int, supply: CloneSupply): nat {
    PresentFrom(s, source, 256) + Need(s, AllPages(s, source, supply))
  }

  /* The copying, step by step. */

  datatype CopyClause = Soundness | Untouchedness | Copies | Counting | Addresses | Growth | Budget | Reach

  /** The directory with its tables from 1 GB up to number `n` copied, clause by clause. The heap has grown for the
      tables up to number `paid`, which is `n` or the next. */
  ghost predicate DirectoryHolds(c: CopyClause, s0: Space, m0: seq<Page>, s: Space, m: seq<Page>, source: int, d: int,
                                 n: int, paid: int, supply: CloneSupply) {
    match c
    case Soundness => Sound(s)
    case Untouchedness => Untouched(s0, m0, s, m, d)
    case Copies => TablesCopied(s0, m0, s, m, source, d, n)
    case Counting => FramesCounted(s0, s, d, n)
    case Addresses => AddressesFree(s0, s, source, n, supply)
    case Growth => GrowthGoesOn(s0, s, source, paid, supply)
    case Budget => Within(s0, s, source, n, paid, supply)
    case Reach => SpaceRuns.Reaches(s0, s)
  }

  ghost predicate AddressesFree(s0: Space, s: Space, source: int, n: int, supply: CloneSupply) {
    && TablesAreSupplied(s0, s, source, n, supply)
    && forall i {:trigger supply.tables[i]} ::
         256 <= i < |supply.tables| && n <= i && Pointer(s0.directories, source, i) != 0 ==>
         supply.tables[i].address !in s.tables
  }

  /** The new tables are the kernel's and those made of the supply for the tables below number `n`. */
  ghost predicate TablesAreSupplied(s0: Space, s: Space, source: int, n: int, supply: CloneSupply) {
    forall a :: a in s.tables && a !in s0.tables && a >= 0x500000 ==> IsSupplied(s0, source, n, supply, a)
  }

  ghost predicate IsSupplied(s0: Space, source: int, n: int, supply: CloneSupply, a: int) {
    exists i :: 256 <= i < n && i < |supply.tables| && Pointer(s0.directories, source, i) != 0
                && a == supply.tables[i].address
  }

  /** The pages still to come are absent, and those supplied are present. */
  ghost predicate GrowthGoesOn(s0: Space, s: Space, source: int, paid: int, supply: CloneSupply) {
    && Growable(s, RestPages(s0, source, supply, paid))
    && forall p: nat :: PageSupplied(s0, source, supply, paid, p) ==> p < 0x40000 && PageOf(s, p).present
  }

  /** The frames in use and those still needed add up to what was needed at the start. */
  ghost predicate Within(s0: Space, s: Space, source: int, n: int, paid: int, supply: CloneSupply) {
    |s.used| + Need(s, RestPages(s0, source, supply, paid)) + PresentFrom(s0, source, n)
    == |s0.used| + FramesNeeded(s0, source, supply)
  }

  ghost predicate CopyingDirectory(s0: Space, m0: seq<Page>, s: Space, m: seq<Page>, source: int, d: int, n: int,
                                   paid: int, supply: CloneSupply) {
    forall c :: DirectoryHolds(c, s0, m0, s, m, source, d, n, paid, supply)
  }

  lemma OpenDirectory(s0: Space, m0: seq<Page>, s: Space, m: seq<Page>, source: int, d: int, n: int, paid: int,
                      supply: CloneSupply)
    requires CopyingDirectory(s0, m0, s, m, source, d, n, paid, supply)
    ensures Sound(s) && Untouched(s0, m0, s, m, d) && TablesCopied(s0, m0, s, m, source, d, n)
    ensures FramesCounted(s0, s, d, n) && AddressesFree(s0, s, source, n, supply)
    ensures GrowthGoesOn(s0, s, source, paid, supply) && Within(s0, s, source, n, paid, supply)
    ensures SpaceRuns.Reaches(s0, s)
  {
    assert DirectoryHolds(Soundness, s0, m0, s, m, source, d, n, paid, supply);
    assert DirectoryHolds(Untouchedness, s0, m0, s, m, source, d, n, paid, supply);
    assert DirectoryHolds(Copies, s0, m0, s, m, source, d, n, paid, supply);
    assert DirectoryHolds(Counting, s0, m0, s, m, source, d, n, paid, supply);
    assert DirectoryHolds(Addresses, s0, m0, s, m, source, d, n, paid, supply);
    assert DirectoryHolds(Growth, s0, m0, s, m, source, d, n, paid, supply);
    assert DirectoryHolds(Budget, s0, m0, s, m, source, d, n, paid, supply);
    assert DirectoryHolds(Reach, s0, m0, s, m, source, d, n, paid, supply);
  }

  lemma CloseDirectory(s0: Space, m0: seq<Page>, s: Space, m: seq<Page>, source: int, d: int, n: int, paid: int,
                       supply: CloneSupply)
    requires Sound(s) && Untouched(s0, m0, s, m, d) && TablesCopied(s0, m0, s, m, source, d, n)
    requires FramesCounted(s0, s, d, n) && AddressesFree(s0, s, source, n, supply)
    requires GrowthGoesOn(s0, s, source, paid, supply) && Within(s0, s, source, n, paid, supply)
    requires SpaceRuns.Reaches(s0, s)
    ensures CopyingDirectory(s0, m0, s, m, source, d, n, paid, supply)
  {}

  /** The same with, beside it, a table that is copied up to entry `j`, since the space was `s1`. */
  ghost predicate TableHolds(c: CopyClause, s0: Space, m0: seq<Page>, s1: Space, s: Space, m: seq<Page>, source: int,
                             d: int, i: int, a: int, j: int) {
    match c
    case Soundness => Sound(s)
    case Untouchedness => Untouched(s0, m0, s, m, d)
    case Copies => TablesCopied(s0, m0, s, m, source, d, i) && TableCopied(s0, m0, s, m, source, i, a, j)
    case Counting => s.used == s1.used + TableFrames(s.tables, a, i, j, false)
    case Addresses => a in s.tables && a !in s0.tables && a in s.home && s.home[a] == Place(d, i) && Backed(s, a)
    case Growth => OnlyTable(s1, s, a)
    case Budget => |s.used| + PresentUnder(s0, source, i, j) == |s1.used| + PresentUnder(s0, source, i, 0)
    case Reach => SpaceRuns.Reaches(s0, s)
  }

  /** Only the entries of table `a` change. */
  ghost predicate OnlyTable(s: Space, t: Space, a: int) {
    && t.directories == s.directories && t.kernel == s.kernel && t.tables.Keys == s.tables.Keys
    && (forall b, k {:trigger EntryIn(t.tables, b, k)} :: b != a ==> EntryIn(t.tables, b, k) == EntryIn(s.tables, b, k))
  }

  ghost predicate CopyingTable(s0: Space, m0: seq<Page>, s1: Space, s: Space, m: seq<Page>, source: int, d: int,
                               i: int, a: int, j: int) {
    forall c :: TableHolds(c, s0, m0, s1, s, m, source, d, i, a, j)
  }

  lemma OpenTable(s0: Space, m0: seq<Page>, s1: Space, s: Space, m: seq<Page>, source: int, d: int, i: int, a: int,
                  j: int)
    requires CopyingTable(s0, m0, s1, s, m, source, d, i, a, j)
    ensures Sound(s) && Untouched(s0, m0, s, m, d) && OnlyTable(s1, s, a)
    ensures TablesCopied(s0, m0, s, m, source, d, i) && TableCopied(s0, m0, s, m, source, i, a, j)
    ensures s.used == s1.used + TableFrames(s.tables, a, i, j, false)
    ensures a in s.tables && a !in s0.tables && a in s.home && s.home[a] == Place(d, i) && Backed(s, a)
    ensures |s.used| + PresentUnder(s0, source, i, j) == |s1.used| + PresentUnder(s0, source, i, 0)
    ensures SpaceRuns.Reaches(s0, s)
  {
    assert TableHolds(Soundness, s0, m0, s1, s, m, source, d, i, a, j);
    assert TableHolds(Untouchedness, s0, m0, s1, s, m, source, d, i, a, j);
    assert TableHolds(Copies, s0, m0, s1, s, m, source, d, i, a, j);
    assert TableHolds(Counting, s0, m0, s1, s, m, source, d, i, a, j);
    assert TableHolds(Addresses, s0, m0, s1, s, m, source, d, i, a, j);
    assert TableHolds(Growth, s0, m0, s1, s, m, source, d, i, a, j);
    assert TableHolds(Budget, s0, m0, s1, s, m, source, d, i, a, j);
    assert TableHolds(Reach, s0, m0, s1, s, m, source, d, i, a, j);
  }

  lemma CloseTable(s0: Space, m0: seq<Page>, s1: Space, s: Space, m: seq<Page>, source: int, d: int, i: int, a: int,
                   j: int)
    requires Sound(s) && Untouched(s0, m0, s, m, d) && OnlyTable(s1, s, a)
    requires TablesCopied(s0, m0, s, m, source, d, i) && TableCopied(s0, m0, s, m, source, i, a, j)
    requires s.used == s1.used + TableFrames(s.tables, a, i, j, false)
    requires a in s.tables && a !in s0.tables && a in s.home && s.home[a] == Place(d, i) && Backed(s, a)
    requires |s.used| + PresentUnder(s0, source, i, j) == |s1.used| + PresentUnder(s0, source, i, 0)
    requires SpaceRuns.Reaches(s0, s)
    ensures CopyingTable(s0, m0, s1, s, m, source, d, i, a, j)
  {}

  /** A table that is not entered yet is under no pointer. */
  lemma NotEntered(s: Space, d: int, i: int, a: int)
    requires Sound(s) && a in s.tables && a in s.home && s.home[a] == Place(d, i) && 256 <= i
    requires Pointer(s.directories, d, i) == 0
    ensures forall e, k :: Pointer(s.directories, e, k) != a
  {
    assert Holds(s, Homes) && Holds(s, Shapes);
    forall e, k ensures Pointer(s.directories, e, k) != a {
      assert Pointer(s.directories, e, k) == a && k >= 256 ==> Place(e, k) == Place(d, i);
    }
  }

  lemma CopyEntryKeeps(s: Space, d: int, i: int, a: int, j: int, e: Entry, frame: nat)
    requires Sound(s) && a in s.tables && a in s.home && s.home[a] == Place(d, i) && 0 <= j < 1024
    requires EntryIn(s.tables, a, j) == Zeroed() && e.present && frame < s.managed && frame !in s.used
    requires Backed(s, a) && forall k :: k < 256 ==> Pointer(s.directories, s.kernel, k) != a
    ensures |s.tables[a]| == 1024
    ensures Sound(CopyEntry(s, a, j, e, frame)) && Backed(CopyEntry(s, a, j, e, frame), a)
    ensures SpaceRuns.Reaches(s, CopyEntry(s, a, j, e, frame))
  {
    assert Holds(s, Homes) && Holds(s, Shapes);
    SpaceRuns.OneStep(s, SpaceRuns.FillProcessEntry(a, j, e.(frame := frame, userMode := true)));
    EntriesAfterMap(s, CopyEntry(s, a, j, e, frame), a, j, e.(frame := frame, userMode := true));
    assert EntryOf(CopyEntry(s, a, j, e, frame), a) == EntryOf(s, a)
           || !EntryOf(s, a).present || EntryOf(CopyEntry(s, a, j, e, frame), a).present;
  }

  lemma UntouchedByCopy(s0: Space, m0: seq<Page>, s: Space, m: seq<Page>, t: Space, n: seq<Page>, d: int, a: int,
                        j: int, e: Entry, frame: nat)
    requires Untouched(s0, m0, s, m, d) && a !in s0.tables && a in s.tables && 0 <= j < |s.tables[a]|
    requires t == CopyEntry(s, a, j, e, frame) && MemoryKept(s, m, n)
    requires forall k :: Pointer(s.directories, s.kernel, k) != a
    ensures Untouched(s0, m0, t, n, d)
  {
    EntriesAfterMap(s, t, a, j, e.(frame := frame, userMode := true));
    StillKept(s0, m0, s, m, n);
    assert forall i, k :: EntryAt(t, t.kernel, i, k) == EntryAt(s, s.kernel, i, k);
  }

  /** A present page of a sound space: its frame is a frame, and its bit is set if it is managed. */
  lemma FrameOfPage(s: Space, d: int, i: int, j: int)
    requires Sound(s) && EntryAt(s, d, i, j).present
    ensures var f := EntryAt(s, d, i, j).frame;
            f < 0x100000 && (f < s.managed ==> f in s.used)
  {
    assert Holds(s, Forms) && Holds(s, Owners);
  }

  lemma SizesOf(s: Space)
    requires Sound(s)
    ensures s.managed <= 0x100000 && 0 !in s.tables && Entries(s.tables)
    ensures forall a :: a in s.tables ==> |s.tables[a]| == 1024
    ensures forall d :: d in s.directories ==> |s.directories[d].tables| == 1024 && |s.directories[d].x86| == 1024
  {
    assert Holds(s, Shapes) && Holds(s, Forms);
  }

  /** The bytes and books of one entry more. */
  lemma NextEntryIsCopy(s0: Space, m0: seq<Page>, s1: Space, s: Space, m: seq<Page>, t: Space, n: seq<Page>,
                        source: int, d: int, i: int, a: int, j: int, frame: nat, next: int)
    requires Sound(s0) && |m0| == 0x100000 && 256 <= i < 1024 && 0 <= j < 1024
    requires CopyingTable(s0, m0, s1, s, m, source, d, i, a, j) && EntryAt(s0, source, i, j).present
    requires frame < s.managed && frame !in s.used && EntryAt(s0, source, i, j).frame < |m| && frame < |m|
    requires t == CopyEntry(s, a, j, EntryAt(s0, source, i, j), frame)
    requires n == m[frame := m[EntryAt(s0, source, i, j).frame]]
    requires next == j + 1
    ensures TableCopied(s0, m0, t, n, source, i, a, next) && MemoryKept(s, m, n)
    ensures TablesCopied(s0, m0, t, n, source, d, i) && OnlyTable(s1, t, a)
    ensures t.used == s1.used + TableFrames(t.tables, a, i, next, false)
  {
    OpenTable(s0, m0, s1, s, m, source, d, i, a, j);
    var e := EntryAt(s0, source, i, j);
    SizesOf(s);
    SizesOf(s0);
    FrameOfPage(s0, source, i, j);
    EntriesAfterMap(s, t, a, j, e.(frame := frame, userMode := true));
    assert TableCopied(s0, m0, t, n, source, i, a, next) && MemoryKept(s, m, n) by {
      EntryCopied(s0, m0, s, m, t, n, source, i, a, j, frame);
    }
    assert TablesCopied(s0, m0, t, n, source, d, i) by {
      NotEntered(s, d, i, a);
      TablesStayCopied(s0, m0, s, m, t, n, source, d, a, i);
    }
    assert t.used == s1.used + TableFrames(t.tables, a, i, next, false) by {
      FrameCounted(s, t, s1.used, a, i, j, e, frame);
    }
  }

  /** One entry further, when the page is present. */
  lemma NextEntryCopied(s0: Space, m0: seq<Page>, s1: Space, s: Space, m: seq<Page>, t: Space, n: seq<Page>,
                        source: int, d: int, i: int, a: int, j: int, frame: nat)
    requires Sound(s0) && |m0| == 0x100000 && 256 <= i < 1024 && 0 <= j < 1024
    requires CopyingTable(s0, m0, s1, s, m, source, d, i, a, j) && EntryAt(s0, source, i, j).present
    requires frame < s.managed && frame !in s.used && EntryAt(s0, source, i, j).frame < |m| && frame < |m|
    requires t == CopyEntry(s, a, j, EntryAt(s0, source, i, j), frame)
    requires n == m[frame := m[EntryAt(s0, source, i, j).frame]]
    ensures CopyingTable(s0, m0, s1, t, n, source, d, i, a, j + 1)
  {
    var e := EntryAt(s0, source, i, j);
    NextEntryIsCopy(s0, m0, s1, s, m, t, n, source, d, i, a, j, frame, j + 1);
    OpenTable(s0, m0, s1, s, m, source, d, i, a, j);
    assert |s.tables[a]| == 1024 by {
      SizesOf(s);
    }
    NotEntered(s, d, i, a);
    assert Sound(t) && Backed(t, a) && SpaceRuns.Reaches(s0, t) by {
      assert EntryIn(s.tables, a, j) == Zeroed();
      CopyEntryKeeps(s, d, i, a, j, e, frame);
      SpaceRuns.ReachesOn(s0, s, t);
    }
    assert Untouched(s0, m0, t, n, d) by {
      UntouchedByCopy(s0, m0, s, m, t, n, d, a, j, e, frame);
    }
    CloseTable(s0, m0, s1, t, n, source, d, i, a, j + 1);
  }

  /** One entry further, when the page is not present. */
  lemma NextEntrySkipped(s0: Space, m0: seq<Page>, s1: Space, s: Space, m: seq<Page>, source: int, d: int, i: int,
                         a: int, j: int)
    requires |m0| == 0x100000 && 0 <= j < 1024
    requires CopyingTable(s0, m0, s1, s, m, source, d, i, a, j) && !EntryAt(s0, source, i, j).present
    ensures CopyingTable(s0, m0, s1, s, m, source, d, i, a, j + 1)
  {
    OpenTable(s0, m0, s1, s, m, source, d, i, a, j);
    NoEntryCopied(s0, m0, s, m, source, i, a, j);
    assert EntryIn(s.tables, a, j) == Zeroed();
  }

  /* Growth of the heap before a table is copied. */

  /** Growth leaves all pages above 1 GB as they are. */
  lemma UpperEntriesKept(s: Space, t: Space)
    requires Sound(s) && Sound(t) && KernelGrown(s, t)
    ensures forall e, k, j {:trigger EntryAt(t, e, k, j)} :: k >= 256 ==> EntryAt(t, e, k, j) == EntryAt(s, e, k, j)
  {
    assert Holds(s, Shapes) && Holds(s, Homes) && Holds(s, Roots) && Holds(t, Shapes);
  }

  lemma UntouchedByGrowth(s0: Space, m0: seq<Page>, s: Space, m: seq<Page>, t: Space, d: int)
    requires Untouched(s0, m0, s, m, d) && KernelGrown(s, t) && s.kernel == s0.kernel
    ensures Untouched(s0, m0, t, m, d)
  {
    assert forall f :: f in s.used ==> f in t.used;
  }

  lemma CopiesAfterGrowth(s0: Space, m0: seq<Page>, s: Space, m: seq<Page>, t: Space, source: int, d: int, n: int)
    requires TablesCopied(s0, m0, s, m, source, d, n) && Sound(s) && Sound(t) && KernelGrown(s, t)
    requires d !in s.live && d != s.kernel
    ensures TablesCopied(s0, m0, t, m, source, d, n)
  {
    UpperEntriesKept(s, t);
    assert MemoryKept(s, m, m) && s.used <= t.used;
    forall i, j | 256 <= i < n && 0 <= j < 1024
      ensures Copied(s0, m0, t, m, EntryAt(s0, source, i, j), EntryAt(t, d, i, j))
    {
      CopiedStays(s0, m0, s, m, t, m, EntryAt(s0, source, i, j), EntryAt(s, d, i, j));
    }
  }

  lemma CountAfterGrowth(s0: Space, s: Space, t: Space, d: int, n: int)
    requires FramesCounted(s0, s, d, n) && KernelKept(s0, s) && Sound(s) && Sound(t) && KernelGrown(s, t)
    ensures FramesCounted(s0, t, d, n)
  {
    UpperEntriesKept(s, t);
    SameDirectoryFrames(s, t, d, n, false);
    forall f: nat ensures GrowthFrame(s0, t, f) <==> GrowthFrame(s0, s, f) || GrowthFrame(s, t, f) {
      FrameAddsUp(s0, s, t, f);
    }
  }

  lemma SupplyAfterGrowth(s0: Space, s: Space, t: Space, source: int, i: int, next: int, supply: CloneSupply)
    requires 256 <= i < 1024 && next == i + 1 && GrowthGoesOn(s0, s, source, i, supply)
    requires GrownBy(s, t, PagesOfTable(s0, source, supply, i))
    ensures GrowthGoesOn(s0, t, source, next, supply)
    ensures Need(s, RestPages(s0, source, supply, i)) + |s.used|
            == Need(t, RestPages(s0, source, supply, next)) + |t.used|
  {
    var now, rest := PagesOfTable(s0, source, supply, i), RestPages(s0, source, supply, next);
    assert RestPages(s0, source, supply, i) == now + rest;
    StillGrowable(s, t, now, rest);
    NeedSplits(s, t, now, rest);
    forall p: nat | PageSupplied(s0, source, supply, next, p) ensures p < 0x40000 && PageOf(t, p).present {
      if !PageSupplied(s0, source, supply, i, p) {
        assert p in now && p in now + rest;
      }
    }
  }

  lemma AddressesAfterGrowth(s0: Space, s: Space, t: Space, source: int, n: int, supply: CloneSupply)
    requires AddressesFree(s0, s, source, n, supply) && TablesGrown(s, t) && Supplied(s0, [], source, supply)
    ensures AddressesFree(s0, t, source, n, supply)
  {}

  /** The heap has grown for table `i`. */
  lemma DirectoryAfterGrowth(s0: Space, m0: seq<Page>, s: Space, m: seq<Page>, t: Space, source: int, d: int, i: int,
                             supply: CloneSupply)
    requires 256 <= i < 1024 && Supplied(s0, [], source, supply) && d !in s0.live && d != s0.kernel
    requires CopyingDirectory(s0, m0, s, m, source, d, i, i, supply)
    requires Sound(t) && SpaceRuns.Reaches(s, t) && GrownBy(s, t, PagesOfTable(s0, source, supply, i))
    ensures CopyingDirectory(s0, m0, t, m, source, d, i, i + 1, supply)
  {
    OpenDirectory(s0, m0, s, m, source, d, i, i, supply);
    assert Untouched(s0, m0, t, m, d) by {
      UntouchedByGrowth(s0, m0, s, m, t, d);
    }
    assert TablesCopied(s0, m0, t, m, source, d, i) by {
      CopiesAfterGrowth(s0, m0, s, m, t, source, d, i);
    }
    assert FramesCounted(s0, t, d, i) by {
      CountAfterGrowth(s0, s, t, d, i);
    }
    assert GrowthGoesOn(s0, t, source, i + 1, supply) && Within(s0, t, source, i, i + 1, supply) by {
      SupplyAfterGrowth(s0, s, t, source, i, i + 1, supply);
    }
    assert AddressesFree(s0, t, source, i, supply) by {
      AddressesAfterGrowth(s0, s, t, source, i, supply);
    }
    assert SpaceRuns.Reaches(s0, t) by {
      SpaceRuns.ReachesOn(s0, s, t);
    }
  }

  /* The copy of a table is begun, and finished. */

  lemma AddressIsReady(s0: Space, m0: seq<Page>, s: Space, m: seq<Page>, source: int, d: int, i: int,
                       supply: CloneSupply)
    requires 256 <= i < 1024 && Pointer(s0.directories, source, i) != 0 && Supplied(s0, [], source, supply)
    requires d == supply.directory.address && Untouched(s0, m0, s, m, d)
    requires AddressesFree(s0, s, source, i, supply) && GrowthGoesOn(s0, s, source, i + 1, supply)
    ensures FromHeap(s, supply.tables[i].address)
  {
    var a := supply.tables[i].address;
    assert AddressSupplied(s0, [], source, supply, i + 1, a);
    assert EntryOf(s0, a).present ==> EntryOf(s, a) == EntryOf(s0, a);
    assert PageSupplied(s0, source, supply, i + 1, a / 4096) ==> PageOf(s, a / 4096).present;
  }

  lemma NotInUse(s: Space, a: int)
    requires Sound(s) && a !in s.tables && a != 0
    ensures forall e, k :: Pointer(s.directories, e, k) != a
  {
    assert Holds(s, Roots);
  }

  lemma UntouchedByNewTable(s0: Space, m0: seq<Page>, s: Space, m: seq<Page>, t: Space, d: int, i: int, a: int)
    requires Untouched(s0, m0, s, m, d) && a !in s.tables && t == NewTable(s, a, d, i)
    ensures Untouched(s0, m0, t, m, d) && KernelStill(s, t)
  {
    BlankChangesNothing(s.tables, t.tables, a);
    assert forall e, k, j :: EntryAt(t, e, k, j) == EntryAt(s, e, k, j);
  }

  lemma BlankIsBegun(s0: Space, m0: seq<Page>, s: Space, m: seq<Page>, t: Space, source: int, d: int, i: int, a: int)
    requires TablesCopied(s0, m0, s, m, source, d, i) && Sound(s) && FromHeap(s, a) && t == NewTable(s, a, d, i)
    ensures TablesCopied(s0, m0, t, m, source, d, i) && TableCopied(s0, m0, t, m, source, i, a, 0)
    ensures Backed(t, a)
  {
    BlankChangesNothing(s.tables, t.tables, a);
    NotInUse(s, a);
    assert EntryOf(t, a) == EntryOf(s, a);
    TablesStayCopied(s0, m0, s, m, t, m, source, d, a, i);
  }

  /** A table is begun. */
  lemma TableBegun(s0: Space, m0: seq<Page>, s: Space, m: seq<Page>, t: Space, source: int, d: int, i: int,
                   supply: CloneSupply)
    requires 256 <= i < 1024 && Supplied(s0, [], source, supply) && d == supply.directory.address
    requires CopyingDirectory(s0, m0, s, m, source, d, i, i + 1, supply) && Pointer(s0.directories, source, i) != 0
    requires t == NewTable(s, supply.tables[i].address, d, i)
    ensures CopyingTable(s0, m0, t, t, m, source, d, i, supply.tables[i].address, 0)
  {
    var a := supply.tables[i].address;
    assert FromHeap(s, a) && a !in s0.tables by {
      OpenDirectory(s0, m0, s, m, source, d, i, i + 1, supply);
      AddressIsReady(s0, m0, s, m, source, d, i, supply);
    }
    assert Sound(t) && SpaceRuns.Reaches(s0, t) by {
      OpenDirectory(s0, m0, s, m, source, d, i, i + 1, supply);
      SpaceRuns.OneStep(s, SpaceRuns.MakeTable(a, d, i));
      SpaceRuns.ReachesOn(s0, s, t);
    }
    assert Untouched(s0, m0, t, m, d) by {
      OpenDirectory(s0, m0, s, m, source, d, i, i + 1, supply);
      UntouchedByNewTable(s0, m0, s, m, t, d, i, a);
    }
    assert TablesCopied(s0, m0, t, m, source, d, i) && TableCopied(s0, m0, t, m, source, i, a, 0) && Backed(t, a) by {
      OpenDirectory(s0, m0, s, m, source, d, i, i + 1, supply);
      BlankIsBegun(s0, m0, s, m, t, source, d, i, a);
    }
    CloseTable(s0, m0, t, t, m, source, d, i, a, 0);
  }

  lemma UntouchedByEnter(s0: Space, m0: seq<Page>, s: Space, m: seq<Page>, t: Space, d: int, i: int, a: int, x: int)
    requires Untouched(s0, m0, s, m, d) && d in s.directories && d != s.kernel
    requires 0 <= i < |s.directories[d].tables| && i < |s.directories[d].x86|
    requires t == s.(directories := Entered(s.directories, d, i, a, x))
    ensures Untouched(s0, m0, t, m, d) && KernelStill(s, t)
  {
    PointersAfterEnter(s.directories, t.directories, d, i, a, x);
  }

  lemma SupplyStays(s0: Space, s: Space, t: Space, source: int, paid: int, supply: CloneSupply)
    requires GrowthGoesOn(s0, s, source, paid, supply) && KernelStill(s, t)
    ensures GrowthGoesOn(s0, t, source, paid, supply)
    ensures Need(t, RestPages(s0, source, supply, paid)) == Need(s, RestPages(s0, source, supply, paid))
  {
    assert forall p: nat :: p < 0x40000 ==> PageOf(t, p) == PageOf(s, p);
    var rest := RestPages(s0, source, supply, paid);
    assert TablesMissing(t, rest) == TablesMissing(s, rest);
  }

  lemma AddressesLeft(s0: Space, s: Space, t: Space, source: int, i: int, next: int, supply: CloneSupply)
    requires 256 <= i < 1024 && next == i + 1 && Pointer(s0.directories, source, i) != 0
    requires AddressesFree(s0, s, source, i, supply) && Supplied(s0, [], source, supply)
    requires t.tables.Keys == s.tables.Keys + {supply.tables[i].address}
    ensures AddressesFree(s0, t, source, next, supply)
  {
    forall k | 256 <= k < |supply.tables| && next <= k && Pointer(s0.directories, source, k) != 0
      ensures supply.tables[k].address !in t.tables
    {
      assert supply.tables[i].address != supply.tables[k].address;
    }
  }

  /** Copying a table leaves the kernel's half as it is. */
  lemma KernelIsStill(s: Space, s1: Space, u: Space, t: Space, d: int, i: int, a: int)
    requires Sound(s) && a !in s.tables && a != 0 && s1 == NewTable(s, a, d, i) && OnlyTable(s1, u, a)
    requires t == Attach(u, d, i, a) && d != s.kernel && d in u.directories
    requires 0 <= i < |u.directories[d].tables| && i < |u.directories[d].x86|
    ensures KernelStill(s, t)
    ensures forall k, j :: k < i ==> EntryAt(t, d, k, j) == EntryAt(s, d, k, j)
  {
    NotInUse(s, a);
    BlankChangesNothing(s.tables, s1.tables, a);
    PointersAfterEnter(u.directories, t.directories, d, i, a, PhysicalAddress(u, a) + 7);
  }

  lemma TableAddsUp(s0: Space, s: Space, u: Space, t: Space, source: int, i: int, next: int, supply: CloneSupply)
    requires 256 <= i < 1024 && next == i + 1 && Pointer(s0.directories, source, i) != 0
    requires Within(s0, s, source, i, next, supply) && t.used == u.used
    requires |u.used| + PresentUnder(s0, source, i, 1024) == |s.used| + PresentUnder(s0, source, i, 0)
    requires Need(t, RestPages(s0, source, supply, next)) == Need(s, RestPages(s0, source, supply, next))
    ensures Within(s0, t, source, next, next, supply)
  {}

  lemma TableIsReady(s0: Space, m0: seq<Page>, s: Space, s1: Space, u: Space, n: seq<Page>, m: seq<Page>, source: int,
                     d: int, i: int, supply: CloneSupply)
    requires 256 <= i < 1024 && Supplied(s0, [], source, supply) && d == supply.directory.address
    requires Pointer(s0.directories, source, i) != 0
    requires CopyingDirectory(s0, m0, s, m, source, d, i, i + 1, supply)
    requires CopyingTable(s0, m0, s1, u, n, source, d, i, supply.tables[i].address, 1024)
    ensures d in u.directories && |u.directories[d].tables| == 1024 && |u.directories[d].x86| == 1024
    ensures supply.tables[i].address !in s.tables && supply.tables[i].address != 0
    ensures s.kernel == u.kernel == s0.kernel && Pointer(u.directories, d, i) == 0
  {
    OpenDirectory(s0, m0, s, m, source, d, i, i + 1, supply);
    OpenTable(s0, m0, s1, u, n, source, d, i, supply.tables[i].address, 1024);
    SizesOf(u);
  }

  /** The books once a table is entered. */
  lemma TableIsCounted(s0: Space, s: Space, s1: Space, u: Space, t: Space, source: int, d: int, i: int, next: int,
                       supply: CloneSupply)
    requires 256 <= i < 1024 && next == i + 1 && Pointer(s0.directories, source, i) != 0 && d != s.kernel
    requires Sound(s) && |supply.tables| == 1024
    requires var a := supply.tables[i].address;
             && a !in s.tables && a != 0 && s1 == NewTable(s, a, d, i) && OnlyTable(s1, u, a) && t == Attach(u, d, i, a)
             && u.used == s1.used + TableFrames(u.tables, a, i, 1024, false)
    requires d in u.directories && |u.directories[d].tables| == 1024 && |u.directories[d].x86| == 1024
    requires FramesCounted(s0, s, d, i) && GrowthGoesOn(s0, s, source, next, supply)
    requires Within(s0, s, source, i, next, supply)
    requires |u.used| + PresentUnder(s0, source, i, 1024) == |s1.used| + PresentUnder(s0, source, i, 0)
    ensures FramesCounted(s0, t, d, next)
    ensures GrowthGoesOn(s0, t, source, next, supply) && Within(s0, t, source, next, next, supply)
  {
    var a := supply.tables[i].address;
    assert KernelStill(s, t) && forall k, j :: k < i ==> EntryAt(t, d, k, j) == EntryAt(s, d, k, j) by {
      KernelIsStill(s, s1, u, t, d, i, a);
    }
    assert FramesCounted(s0, t, d, next) by {
      PointersAfterEnter(u.directories, t.directories, d, i, a, PhysicalAddress(u, a) + 7);
      TableCounted(s0, s, t, d, i, a);
    }
    assert GrowthGoesOn(s0, t, source, next, supply) && Within(s0, t, source, next, next, supply) by {
      SupplyStays(s0, s, t, source, next, supply);
      TableAddsUp(s0, s, u, t, source, i, next, supply);
    }
  }

  lemma TableIsEntered(s0: Space, m0: seq<Page>, s1: Space, u: Space, n: seq<Page>, t: Space, source: int, d: int,
                       i: int, a: int, next: int)
    requires 256 <= i < 1024 && next == i + 1 && d != u.kernel && a != 0 && Pointer(s0.directories, source, i) != 0
    requires d in u.directories && |u.directories[d].tables| == 1024 && |u.directories[d].x86| == 1024
    requires Pointer(u.directories, d, i) == 0
    requires CopyingTable(s0, m0, s1, u, n, source, d, i, a, 1024) && t == Attach(u, d, i, a)
    ensures Sound(t) && SpaceRuns.Reaches(s0, t) && Untouched(s0, m0, t, n, d)
    ensures TablesCopied(s0, m0, t, n, source, d, next)
  {
    OpenTable(s0, m0, s1, u, n, source, d, i, a, 1024);
    assert Sound(t) && SpaceRuns.Reaches(s0, t) by {
      SpaceRuns.OneStep(u, SpaceRuns.EnterTable(d, i, a));
      SpaceRuns.ReachesOn(s0, u, t);
    }
    assert TablesCopied(s0, m0, t, n, source, d, next) by {
      TableEntered(s0, m0, u, n, t, source, d, i, a);
    }
    assert Untouched(s0, m0, t, n, d) by {
      UntouchedByEnter(s0, m0, u, n, t, d, i, a, PhysicalAddress(u, a) + 7);
    }
  }

  lemma BooksAreKept(s0: Space, m0: seq<Page>, s: Space, s1: Space, u: Space, n: seq<Page>, t: Space, m: seq<Page>,
                     source: int, d: int, i: int, next: int, supply: CloneSupply)
    requires 256 <= i < 1024 && next == i + 1 && Pointer(s0.directories, source, i) != 0 && d != s.kernel
    requires Supplied(s0, [], source, supply)
    requires d in u.directories && |u.directories[d].tables| == 1024 && |u.directories[d].x86| == 1024
    requires CopyingDirectory(s0, m0, s, m, source, d, i, next, supply)
    requires var a := supply.tables[i].address;
             && a !in s.tables && a != 0 && s1 == NewTable(s, a, d, i) && t == Attach(u, d, i, a)
             && CopyingTable(s0, m0, s1, u, n, source, d, i, a, 1024)
    ensures FramesCounted(s0, t, d, next) && AddressesFree(s0, t, source, next, supply)
    ensures GrowthGoesOn(s0, t, source, next, supply) && Within(s0, t, source, next, next, supply)
  {
    OpenDirectory(s0, m0, s, m, source, d, i, next, supply);
    OpenTable(s0, m0, s1, u, n, source, d, i, supply.tables[i].address, 1024);
    AddressesLeft(s0, s, t, source, i, next, supply);
    TableIsCounted(s0, s, s1, u, t, source, d, i, next, supply);
  }

  /** A table is finished. */
  lemma TableFinished(s0: Space, m0: seq<Page>, s: Space, s1: Space, u: Space, n: seq<Page>, t: Space, m: seq<Page>,
                      source: int, d: int, i: int, supply: CloneSupply)
    requires |m0| == 0x100000 && 256 <= i < 1024 && d != s0.kernel && d == supply.directory.address
    requires Supplied(s0, [], source, supply) && Pointer(s0.directories, source, i) != 0
    requires CopyingDirectory(s0, m0, s, m, source, d, i, i + 1, supply)
    requires s1 == NewTable(s, supply.tables[i].address, d, i)
    requires CopyingTable(s0, m0, s1, u, n, source, d, i, supply.tables[i].address, 1024)
    requires t == Attach(u, d, i, supply.tables[i].address)
    ensures CopyingDirectory(s0, m0, t, n, source, d, i + 1, i + 1, supply)
  {
    var a := supply.tables[i].address;
    TableIsReady(s0, m0, s, s1, u, n, m, source, d, i, supply);
    TableIsEntered(s0, m0, s1, u, n, t, source, d, i, a, i + 1);
    BooksAreKept(s0, m0, s, s1, u, n, t, m, source, d, i, i + 1, supply);
    CloseDirectory(s0, m0, t, n, source, d, i + 1, i + 1, supply);
  }

  lemma NothingSupplied(s0: Space, s: Space, source: int, i: int, next: int, supply: CloneSupply)
    requires 256 <= i < 1024 && next == i + 1 && Pointer(s0.directories, source, i) == 0
    requires GrowthGoesOn(s0, s, source, i, supply) && Within(s0, s, source, i, i, supply)
    ensures GrowthGoesOn(s0, s, source, next, supply) && Within(s0, s, source, next, next, supply)
  {
    assert RestPages(s0, source, supply, i) == RestPages(s0, source, supply, next);
    assert forall p: nat :: PageSupplied(s0, source, supply, next, p) <==> PageSupplied(s0, source, supply, i, p);
  }

  lemma NextTableSkipped(s0: Space, m0: seq<Page>, s: Space, m: seq<Page>, source: int, d: int, i: int,
                         supply: CloneSupply)
    requires Sound(s0) && |m0| == 0x100000 && 256 <= i < 1024 && Pointer(s0.directories, source, i) == 0
    requires CopyingDirectory(s0, m0, s, m, source, d, i, i, supply)
    ensures CopyingDirectory(s0, m0, s, m, source, d, i + 1, i + 1, supply)
  {
    OpenDirectory(s0, m0, s, m, source, d, i, i, supply);
    assert 0 !in s.tables && 0 !in s0.tables by {
      SizesOf(s);
      SizesOf(s0);
    }
    assert TablesCopied(s0, m0, s, m, source, d, i + 1) by {
      TableSkipped(s0, m0, s, m, source, d, i);
    }
    assert FramesCounted(s0, s, d, i + 1) by {
      assert Pointer(s.directories, d, i) == 0;
      NoUnsparedFramesUnderNull(s.tables, i, 1024);
      assert DirectoryFrames(s, d, i + 1, false) == DirectoryFrames(s, d, i, false);
    }
    assert GrowthGoesOn(s0, s, source, i + 1, supply) && Within(s0, s, source, i + 1, i + 1, supply) by {
      NothingSupplied(s0, s, source, i, i + 1, supply);
    }
    CloseDirectory(s0, m0, s, m, source, d, i + 1, i + 1, supply);
  }

  lemma {:induction false} NoUnsparedFramesUnderNull(tables: Tables, i: int, n: int)
    requires 0 !in tables
    ensures TableFrames(tables, 0, i, n, false) == {}
    decreases n
  {
    if n > 0 {
      NoUnsparedFramesUnderNull(tables, i, n - 1);
    }
  }

  /** After growth for the new directory, the directory itself, still blank. */
  lemma DirectoryBegun(s0: Space, m0: seq<Page>, b: Space, t: Space, source: int, d: int, supply: CloneSupply)
    requires Sound(s0) && |m0| == 0x100000 && Supplied(s0, [], source, supply) && d == supply.directory.address
    requires Sound(b) && SpaceRuns.Reaches(s0, b) && GrownBy(s0, b, supply.directory.pages) && t == NewDirectory(b, d)
    ensures CopyingDirectory(s0, m0, t, m0, source, d, 256, 256, supply)
  {
    assert Untouched(s0, m0, t, m0, d) && KernelStill(b, t) && TablesCopied(s0, m0, t, m0, source, d, 256) by {
      BlankIsUntouched(s0, m0, b, t, source, d);
    }
    assert Sound(t) && SpaceRuns.Reaches(s0, t) by {
      SpaceRuns.OneStep(b, SpaceRuns.MakeDirectory(d));
      SpaceRuns.ReachesOn(s0, b, t);
    }
    assert FramesCounted(s0, t, d, 256) by {
      assert DirectoryFrames(t, d, 256, false) == {};
      StillTheSameGrowth(s0, b, t);
    }
    assert AddressesFree(s0, t, source, 256, supply) by {
      AddressesAfterGrowth(s0, s0, b, source, 256, supply);
    }
    assert GrowthGoesOn(s0, t, source, 256, supply) && Within(s0, t, source, 256, 256, supply) by {
      FirstPagesSupplied(s0, b, source, supply);
      SupplyStays(s0, b, t, source, 256, supply);
    }
    CloseDirectory(s0, m0, t, m0, source, d, 256, 256, supply);
  }

  lemma BlankIsUntouched(s0: Space, m0: seq<Page>, b: Space, t: Space, source: int, d: int)
    requires KernelGrown(s0, b) && d !in s0.directories && t == NewDirectory(b, d)
    ensures Untouched(s0, m0, t, m0, d) && KernelStill(b, t) && TablesCopied(s0, m0, t, m0, source, d, 256)
  {
    PointersAfterBlank(b.directories, t.directories, d);
    assert forall f :: f in s0.used ==> f in b.used;
  }

  lemma FirstPagesSupplied(s0: Space, b: Space, source: int, supply: CloneSupply)
    requires Supplied(s0, [], source, supply) && GrownBy(s0, b, supply.directory.pages)
    ensures GrowthGoesOn(s0, b, source, 256, supply) && Within(s0, b, source, 256, 256, supply)
  {
    var now, rest := supply.directory.pages, RestPages(s0, source, supply, 256);
    assert [] + AllPages(s0, source, supply) == now + rest;
    StillGrowable(s0, b, now, rest);
    NeedSplits(s0, b, now, rest);
    forall p: nat | PageSupplied(s0, source, supply, 256, p) ensures p < 0x40000 && PageOf(b, p).present {
      assert p in now && p in now + rest;
    }
  }

  /* Below 1 GB. */

  /** Directory `d` shares the source's tables below number `n`; the rest below 1 GB is blank. */
  ghost predicate SharedBelow(directories: Directories, source: int, d: int, n: int) {
    forall i {:trigger Pointer(directories, d, i)} {:trigger Register(directories, d, i)} :: 0 <= i < 256 ==>
      if i < n then
        && Pointer(directories, d, i) == Pointer(directories, source, i)
        && Register(directories, d, i) == Register(directories, source, i)
      else Pointer(directories, d, i) == 0 && Register(directories, d, i) == 0
  }

  /** What a clone is: above 1 GB every present page of the source has a copy in a fresh frame and nothing else is
      present; below 1 GB the tables are the source's own; and the frames newly in use are those of the copies and those
      of the pages the kernel has got meanwhile. */
  ghost predicate Cloned(s0: Space, m0: seq<Page>, s: Space, m: seq<Page>, source: int, d: int) {
    && Untouched(s0, m0, s, m, d) && UpperCopied(s0, m0, s, m, source, d, 1024)
    && SameKernelHalf(s.directories, d, source) && FramesCounted(s0, s, d, 1024)
  }

  /** All the heap supplied is there, and as many frames were taken as were needed. */
  ghost predicate AllSupplied(s0: Space, s: Space, source: int, supply: CloneSupply) {
    && |s.used| == |s0.used| + FramesNeeded(s0, source, supply)
    && (forall p :: p in AllPages(s0, source, supply) ==> PageOf(s, p).present)
    && TablesAreSupplied(s0, s, source, 1024, supply)
  }

  /** Everything above 1 GB is copied, and the tables below number `n` are shared. */
  ghost predicate SharingDirectory(s0: Space, m0: seq<Page>, s: Space, m: seq<Page>, source: int, d: int, n: int,
                                   supply: CloneSupply) {
    && Sound(s) && Untouched(s0, m0, s, m, d) && UpperCopied(s0, m0, s, m, source, d, 1024)
    && FramesCounted(s0, s, d, 1024) && AllSupplied(s0, s, source, supply) && SpaceRuns.Reaches(s0, s)
    && SharedBelow(s.directories, source, d, n)
  }

  lemma {:induction false} RestIsSupplied(s: Space, source: int, supply: CloneSupply, n: int, p: nat)
    requires p in RestPages(s, source, supply, n) && 256 <= n
    ensures PageSupplied(s, source, supply, 1024, p)
    decreases 1024 - n
  {
    if p !in PagesOfTable(s, source, supply, n) {
      RestIsSupplied(s, source, supply, n + 1, p);
    }
  }

  lemma AllTablesCopied(s0: Space, m0: seq<Page>, s: Space, m: seq<Page>, source: int, d: int, supply: CloneSupply)
    requires CopyingDirectory(s0, m0, s, m, source, d, 1024, 1024, supply)
    ensures SharingDirectory(s0, m0, s, m, source, d, 0, supply)
  {
    OpenDirectory(s0, m0, s, m, source, d, 1024, 1024, supply);
    assert TablesMissing(s, []) == {};
    forall p | p in AllPages(s0, source, supply) ensures PageOf(s, p).present {
      if p !in supply.directory.pages {
        RestIsSupplied(s0, source, supply, 256, p);
      }
      assert PageSupplied(s0, source, supply, 1024, p);
    }
  }

  lemma SharedNext(s: Space, t: Space, source: int, d: int, i: int)
    requires SharedBelow(s.directories, source, d, i) && 0 <= i < 256 && source != d && d in s.directories
    requires |s.directories[d].tables| == 1024 && |s.directories[d].x86| == 1024
    requires t == Share(s, d, source, i)
    ensures SharedBelow(t.directories, source, d, i + 1)
  {
    PointersAfterEnter(s.directories, t.directories, d, i, Pointer(s.directories, source, i),
                       Register(s.directories, source, i));
  }

  lemma SupplyIsStill(s0: Space, s: Space, t: Space, source: int, supply: CloneSupply)
    requires AllSupplied(s0, s, source, supply) && KernelStill(s, t) && t.used == s.used && t.tables == s.tables
    requires Growable(s0, [] + AllPages(s0, source, supply))
    ensures AllSupplied(s0, t, source, supply)
  {
    assert [] + AllPages(s0, source, supply) == AllPages(s0, source, supply);
    assert forall p :: p in AllPages(s0, source, supply) ==> PageOf(t, p) == PageOf(s, p);
  }

  lemma NextTableShared(s0: Space, m0: seq<Page>, s: Space, m: seq<Page>, t: Space, source: int, d: int, i: int,
                        supply: CloneSupply)
    requires SharingDirectory(s0, m0, s, m, source, d, i, supply) && 0 <= i < 256 && Supplied(s0, [], source, supply)
    requires d in s.directories && source in s.directories && source != d && d != s.kernel && d !in s.live
    requires t == if Pointer(s.directories, source, i) == 0 then s else Share(s, d, source, i)
    ensures SharingDirectory(s0, m0, t, m, source, d, i + 1, supply)
  {
    SizesOf(s);
    if Pointer(s.directories, source, i) == 0 {
      assert Holds(s, Translation);
      assert Register(s.directories, source, i) == 0;
    } else {
      var a, x := Pointer(s.directories, source, i), Register(s.directories, source, i);
      assert Sound(t) && SpaceRuns.Reaches(s0, t) by {
        SpaceRuns.OneStep(s, SpaceRuns.ShareTable(d, source, i));
        SpaceRuns.ReachesOn(s0, s, t);
      }
      assert Untouched(s0, m0, t, m, d) && KernelStill(s, t) by {
        UntouchedByEnter(s0, m0, s, m, t, d, i, a, x);
      }
      assert SharedBelow(t.directories, source, d, i + 1) by {
        SharedNext(s, t, source, d, i);
      }
      assert AllSupplied(s0, t, source, supply) by {
        SupplyIsStill(s0, s, t, source, supply);
      }
      PointersAfterEnter(s.directories, t.directories, d, i, a, x);
      assert UpperCopied(s0, m0, t, m, source, d, 1024) by {
        UpperStaysCopied(s0, m0, s, m, t, source, d);
      }
      assert FramesCounted(s0, t, d, 1024) by {
        SameDirectoryFrames(s, t, d, 1024, false);
        StillTheSameGrowth(s0, s, t);
      }
    }
  }

  lemma UpperStaysCopied(s0: Space, m0: seq<Page>, s: Space, m: seq<Page>, t: Space, source: int, d: int)
    requires UpperCopied(s0, m0, s, m, source, d, 1024) && t.used == s.used && t.managed == s.managed
    requires forall i :: 256 <= i ==> Pointer(t.directories, d, i) == Pointer(s.directories, d, i)
    requires t.tables == s.tables
    ensures UpperCopied(s0, m0, t, m, source, d, 1024)
  {
    forall i, j | 256 <= i < 1024 && 0 <= j < 1024
      ensures Copied(s0, m0, t, m, EntryAt(s0, source, i, j), EntryAt(t, d, i, j))
    {
      assert EntryAt(t, d, i, j) == EntryAt(s, d, i, j);
    }
  }

  lemma WholeHalfShared(s0: Space, m0: seq<Page>, s: Space, m: seq<Page>, source: int, d: int, supply: CloneSupply)
    requires SharingDirectory(s0, m0, s, m, source, d, 256, supply)
    ensures Cloned(s0, m0, s, m, source, d) && Sound(s) && AllSupplied(s0, s, source, supply)
    ensures SpaceRuns.Reaches(s0, s)
  {}

  /** A clone of the kernel's address space, or of a live process's, has the kernel's half, with every table the kernel
      has got meanwhile. */
  lemma CloneHasTheKernelHalf(s0: Space, m0: seq<Page>, s: Space, m: seq<Page>, source: int, d: int)
    requires Sound(s) && Cloned(s0, m0, s, m, source, d) && (source == s0.kernel || source in s0.live)
    ensures SameKernelHalf(s.directories, d, s.kernel)
  {
    assert Holds(s, Sharing);
  }

  /* When the frames, or the tables, do not suffice. */

  /** A clone that finds too few frames for the growth that is due would have needed more than there are. */
  lemma TooFewForGrowth(s0: Space, m0: seq<Page>, s: Space, m: seq<Page>, source: int, d: int, i: int,
                        supply: CloneSupply, size: nat)
    requires 256 <= i < 1024 && CopyingDirectory(s0, m0, s, m, source, d, i, i, supply)
    requires |s.used| + Need(s, PagesOfTable(s0, source, supply, i)) > size
    ensures |s0.used| + FramesNeeded(s0, source, supply) > size
  {
    assert DirectoryHolds(Budget, s0, m0, s, m, source, d, i, i, supply);
    NeedGrows(s, PagesOfTable(s0, source, supply, i), RestPages(s0, source, supply, i + 1));
  }

  /** And so would one that finds too few for the pages of a table. */
  lemma TooFewForTable(s0: Space, m0: seq<Page>, s: Space, m: seq<Page>, source: int, d: int, i: int,
                       supply: CloneSupply, size: nat)
    requires 256 <= i < 1024 && CopyingDirectory(s0, m0, s, m, source, d, i, i + 1, supply)
    requires Pointer(s0.directories, source, i) != 0 && |s.used| + PresentUnder(s0, source, i, 0) > size
    ensures |s0.used| + FramesNeeded(s0, source, supply) > size
  {
    assert DirectoryHolds(Budget, s0, m0, s, m, source, d, i, i + 1, supply);
  }

  lemma TooFewForEntry(s0: Space, m0: seq<Page>, s1: Space, s: Space, m: seq<Page>, source: int, d: int, i: int,
                       a: int, j: int, size: nat)
    requires 0 <= j < 1024 && CopyingTable(s0, m0, s1, s, m, source, d, i, a, j)
    requires EntryAt(s0, source, i, j).present && |s.used| >= size
    ensures |s1.used| + PresentUnder(s0, source, i, 0) > size
  {
    assert TableHolds(Budget, s0, m0, s1, s, m, source, d, i, a, j);
  }

  lemma TableFits(s0: Space, m0: seq<Page>, s1: Space, s: Space, m: seq<Page>, source: int, d: int, i: int, a: int)
    requires CopyingTable(s0, m0, s1, s, m, source, d, i, a, 1024)
    ensures |s.used| == |s1.used| + PresentUnder(s0, source, i, 0)
  {
    assert TableHolds(Budget, s0, m0, s1, s, m, source, d, i, a, 1024);
  }

  lemma {:induction false} InRestPages(s: Space, source: int, supply: CloneSupply, n: int, k: int, p: nat)
    requires n <= k < 1024 && p in PagesOfTable(s, source, supply, k)
    ensures p in RestPages(s, source, supply, n)
    decreases k - n
  {
    if n < k {
      InRestPages(s, source, supply, n + 1, k, p);
    }
  }

  /** A table that is missing now was missing at the start. */
  lemma MissingFromTheStart(s0: Space, m0: seq<Page>, s: Space, m: seq<Page>, source: int, d: int, i: int,
                            supply: CloneSupply)
    requires 256 <= i < 1024 && CopyingDirectory(s0, m0, s, m, source, d, i, i, supply) && d != s0.kernel
    requires TablesMissing(s, PagesOfTable(s0, source, supply, i)) != {}
    ensures TablesMissing(s0, AllPages(s0, source, supply)) != {}
  {
    assert DirectoryHolds(Untouchedness, s0, m0, s, m, source, d, i, i, supply);
    var pages := PagesOfTable(s0, source, supply, i);
    var k :| k in TablesMissing(s, pages);
    var p :| p in pages && Pointer(s.directories, s.kernel, p / 1024) == 0 && p / 1024 == k;
    InRestPages(s0, source, supply, 256, i, p);
    assert p in AllPages(s0, source, supply);
    assert k in TablesMissing(s0, AllPages(s0, source, supply));
  }

  /** Pages that are present now under the tables there were at the start need no further table. */
  lemma NoneWasMissing(s0: Space, s: Space, source: int, supply: CloneSupply)
    requires Supplied(s0, [], source, supply) && AllSupplied(s0, s, source, supply) && Sound(s) && SameTables(s0, s)
    ensures TablesMissing(s0, AllPages(s0, source, supply)) == {}
  {
    SizesOf(s);
    var all := AllPages(s0, source, supply);
    assert [] + all == all;
    forall p | p in all ensures Pointer(s0.directories, s0.kernel, p / 1024) != 0 {
      assert PageOf(s, p).present && p < 0x40000;
      assert Pointer(s.directories, s.kernel, p / 1024) == Pointer(s0.directories, s0.kernel, p / 1024);
    }
  }

  /* When the heap has grown before the clone begins. */

  lemma {:induction false} SamePages(s: Space, t: Space, source: int, supply: CloneSupply, n: int)
    requires forall k :: k >= 256 ==> Pointer(t.directories, source, k) == Pointer(s.directories, source, k)
    requires 256 <= n
    ensures RestPages(t, source, supply, n) == RestPages(s, source, supply, n)
    decreases 1024 - n
  {
    if n < 1024 {
      SamePages(s, t, source, supply, n + 1);
    }
  }

  lemma {:induction false} SamePresent(s: Space, t: Space, source: int, n: int)
    requires forall k :: k >= 256 ==> Pointer(t.directories, source, k) == Pointer(s.directories, source, k)
    requires forall k, j :: k >= 256 ==> EntryAt(t, source, k, j) == EntryAt(s, source, k, j)
    requires 256 <= n
    ensures PresentFrom(t, source, n) == PresentFrom(s, source, n)
    decreases 1024 - n
  {
    if n < 1024 {
      SamePresentUnder(s, t, source, n, 0);
      SamePresent(s, t, source, n + 1);
    }
  }

  lemma {:induction false} SamePresentUnder(s: Space, t: Space, source: int, i: int, j: int)
    requires forall k :: EntryAt(t, source, i, k) == EntryAt(s, source, i, k)
    ensures PresentUnder(t, source, i, j) == PresentUnder(s, source, i, j)
    decreases 1024 - j
  {
    if j < 1024 {
      SamePresentUnder(s, t, source, i, j + 1);
    }
  }

  lemma SameSupply(s: Space, t: Space, source: int, supply: CloneSupply)
    requires forall k :: k >= 256 ==> Pointer(t.directories, source, k) == Pointer(s.directories, source, k)
    ensures AllPages(t, source, supply) == AllPages(s, source, supply)
    ensures forall n, p: nat :: PageSupplied(t, source, supply, n, p) <==> PageSupplied(s, source, supply, n, p)
  {
    SamePages(s, t, source, supply, 256);
    assert forall k :: k >= 256 ==> PagesOfTable(t, source, supply, k) == PagesOfTable(s, source, supply, k);
    forall n, p: nat | PageSupplied(s, source, supply, n, p) ensures PageSupplied(t, source, supply, n, p) {
      if p !in supply.directory.pages {
        var k :| 256 <= k < n && p in PagesOfTable(s, source, supply, k);
        assert p in PagesOfTable(t, source, supply, k);
      }
    }
  }

  lemma StillSupplied(s: Space, t: Space, before: seq<nat>, source: int, supply: CloneSupply, n: int, a: int)
    requires GrownBy(s, t, before) && AddressSupplied(s, before, source, supply, n, a)
    requires forall p: nat :: PageSupplied(t, source, supply, n, p) <==> PageSupplied(s, source, supply, n, p)
    ensures AddressSupplied(t, [], source, supply, n, a)
  {
    if EntryOf(s, a).present || a / 4096 in before {
      AddressAfterGrowth(s, t, a, before);
    }
  }

  /** What was promised for a clone after some growth holds once that growth is over. */
  lemma SuppliedAfterGrowth(s: Space, t: Space, before: seq<nat>, source: int, supply: CloneSupply)
    requires GrownBy(s, t, before) && Supplied(s, before, source, supply)
    ensures Supplied(t, [], source, supply) && AllPages(t, source, supply) == AllPages(s, source, supply)
  {
    assert forall k :: k >= 256 ==> Pointer(t.directories, source, k) == Pointer(s.directories, source, k);
    SameSupply(s, t, source, supply);
    var all := AllPages(s, source, supply);
    StillGrowable(s, t, before, all);
    assert [] + all == all;
    StillSupplied(s, t, before, source, supply, 256, supply.directory.address);
    forall i | 256 <= i < 1024 && Pointer(t.directories, source, i) != 0
      ensures AddressSupplied(t, [], source, supply, i + 1, supply.tables[i].address)
      ensures supply.tables[i].address != supply.directory.address
    {
      StillSupplied(s, t, before, source, supply, i + 1, supply.tables[i].address);
    }
  }

  /** The frames needed before that growth are those it takes and those the clone takes after it. */
  lemma NeedAfterGrowth(s: Space, t: Space, before: seq<nat>, source: int, supply: CloneSupply)
    requires GrownBy(s, t, before) && Supplied(s, before, source, supply) && Sound(s) && Sound(t)
    ensures |s.used| + PresentFrom(s, source, 256) + Need(s, before + AllPages(s, source, supply))
            == |t.used| + FramesNeeded(t, source, supply)
    ensures TablesMissing(t, AllPages(t, source, supply)) == {} <==>
            TablesMissing(s, before + AllPages(s, source, supply)) == TablesMissing(s, before)
  {
    SuppliedAfterGrowth(s, t, before, source, supply);
    UpperEntriesKept(s, t);
    SamePresent(s, t, source, 256);
    var all := AllPages(s, source, supply);
    assert forall p :: p in all ==> p in before + all;
    NeedSplits(s, t, before, all);
    MissingSplits(s, before, all);
  }

}

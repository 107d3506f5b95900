/** What the steps of a clone meet and leave (src/paging.c). */
module CloneSteps {
  import Bitmap
  import opened PageTables
  import opened SpaceSteps
  import SpaceRuns
  import opened KernelGrowth
  import opened PageCreation
  import opened Cloning

  /** A clone of the source into a new directory, with what the heap has promised for it. */
  ghost predicate CanClone(s: Space, m: seq<Page>, source: int, d: int, supply: CloneSupply) {
    && Sound(s) && |m| == 0x100000 && source in s.directories && d == supply.directory.address && d !in s.directories
    && Supplied(s, [], source, supply)
  }

  lemma NotLive(s: Space, d: int)
    requires Sound(s) && d !in s.directories
    ensures d !in s.live && d != s.kernel
  {
    assert Holds(s, Sharing) && Holds(s, Shapes);
  }

  lemma GrowablePart(s: Space, pages: seq<nat>, rest: seq<nat>)
    requires Growable(s, pages + rest)
    ensures Growable(s, pages)
  {
    var all := pages + rest;
    assert forall k :: 0 <= k < |pages| ==> all[k] == pages[k];
    assert forall p :: p in pages ==> p in all;
  }

  lemma FirstPagesFit(s: Space, source: int, supply: CloneSupply)
    requires Supplied(s, [], source, supply)
    ensures Growable(s, supply.directory.pages)
    ensures |s.used| + FramesNeeded(s, source, supply) >= |s.used| + Need(s, supply.directory.pages)
    ensures TablesMissing(s, supply.directory.pages) <= TablesMissing(s, AllPages(s, source, supply))
  {
    assert [] + AllPages(s, source, supply) == AllPages(s, source, supply);
    GrowablePart(s, supply.directory.pages, RestPages(s, source, supply, 256));
    NeedGrows(s, supply.directory.pages, RestPages(s, source, supply, 256));
    MissingSplits(s, supply.directory.pages, RestPages(s, source, supply, 256));
  }

  lemma CloneIsBegun(s0: Space, m0: seq<Page>, b: Space, source: int, supply: CloneSupply, settled: bool)
    requires Sound(s0) && |m0| == 0x100000 && Supplied(s0, [], source, supply)
    requires Sound(b) && SpaceRuns.Reaches(s0, b) && GrownBy(s0, b, supply.directory.pages)
    requires settled || TablesMissing(s0, supply.directory.pages) == {}
    ensures var t := NewDirectory(b, supply.directory.address);
            && CopyingDirectory(s0, m0, t, m0, source, supply.directory.address, 256, 256, supply)
            && (settled || SameTables(s0, t)) && t.live == s0.live
  {
    var d := supply.directory.address;
    var t := NewDirectory(b, d);
    DirectoryBegun(s0, m0, b, t, source, d, supply);
    if !settled {
      NoTableMade(s0, b, supply.directory.pages);
      PointersAfterBlank(b.directories, t.directories, d);
    }
  }

  lemma SourceDirectory(s0: Space, m0: seq<Page>, s: Space, m: seq<Page>, source: int, d: int, i: int,
                        supply: CloneSupply, paid: int)
    requires Sound(s0) && source in s0.directories && d !in s0.directories && 256 <= i < 1024
    requires CopyingDirectory(s0, m0, s, m, source, d, i, paid, supply)
    ensures source in s.directories && |s.directories[source].tables| == 1024
    ensures s.directories[source].tables[i] == Pointer(s0.directories, source, i)
    ensures d != s0.kernel && source != d
  {
    OpenDirectory(s0, m0, s, m, source, d, i, paid, supply);
    SizesOf(s);
    NullIsNoTable(s0);
    assert Pointer(s.directories, source, i) == Pointer(s0.directories, source, i);
  }

  /** What growth for table `i` asks for. */
  lemma GrowthIsDue(s0: Space, m0: seq<Page>, s: Space, m: seq<Page>, source: int, d: int, i: int, supply: CloneSupply)
    requires 256 <= i < 1024 && Supplied(s0, [], source, supply) && Pointer(s0.directories, source, i) != 0
    requires Sound(s0) && d !in s0.directories && CopyingDirectory(s0, m0, s, m, source, d, i, i, supply)
    ensures Sound(s) && |m| == |m0| && Growable(s, supply.tables[i].pages) && d !in s0.live && d != s0.kernel
    ensures PagesOfTable(s0, source, supply, i) == supply.tables[i].pages
  {
    OpenDirectory(s0, m0, s, m, source, d, i, i, supply);
    GrowablePart(s, supply.tables[i].pages, RestPages(s0, source, supply, i + 1));
    NotLive(s0, d);
  }

  /** While a table is copied, the source's entries are as they were. */
  lemma SourceIsThere(s0: Space, m0: seq<Page>, s1: Space, s: Space, m: seq<Page>, source: int, d: int, i: int,
                      a: int, j: int)
    requires Sound(s0) && |m0| == 0x100000 && source in s0.directories && source != d && 256 <= i < 1024
    requires 0 <= j < 1024
    requires Pointer(s0.directories, source, i) != 0 && CopyingTable(s0, m0, s1, s, m, source, d, i, a, j)
    ensures source in s.directories && |s.directories[source].tables| == 1024
    ensures var b := s.directories[source].tables[i];
            b in s.tables && |s.tables[b]| == 1024 && s.tables[b][j] == EntryAt(s0, source, i, j)
    ensures a in s.tables && |s.tables[a]| == 1024 && s.managed <= |m| == 0x100000
    ensures EntryAt(s0, source, i, j).present ==> EntryAt(s0, source, i, j).frame < |m|
  {
    OpenTable(s0, m0, s1, s, m, source, d, i, a, j);
    SizesOf(s);
    TableIsThere(s0, source, i);
    assert Holds(s0, Homes);
    assert Pointer(s.directories, source, i) == Pointer(s0.directories, source, i);
    assert EntryIn(s.tables, Pointer(s0.directories, source, i), j) == EntryAt(s0, source, i, j);
    if EntryAt(s0, source, i, j).present {
      FrameOfPage(s0, source, i, j);
    }
  }

  lemma ReadyToEnter(s0: Space, m0: seq<Page>, s1: Space, s: Space, m: seq<Page>, source: int, d: int, i: int, a: int)
    requires CopyingTable(s0, m0, s1, s, m, source, d, i, a, 1024)
    ensures d in s.directories && |s.directories[d].tables| == 1024 && |s.directories[d].x86| == 1024
    ensures Backed(s, a) && 0 !in s.tables
  {
    OpenTable(s0, m0, s1, s, m, source, d, i, a, 1024);
    SizesOf(s);
  }

  lemma LiveIsKept(s0: Space, m0: seq<Page>, s: Space, m: seq<Page>, source: int, d: int, i: int, supply: CloneSupply)
    requires CopyingDirectory(s0, m0, s, m, source, d, i, i, supply)
    ensures s.live == s0.live
  {
    OpenDirectory(s0, m0, s, m, source, d, i, i, supply);
  }

  lemma EnteredAbove(s: Space, u: Space, t: Space, d: int, i: int, a: int)
    requires t == Attach(u, d, i, a) && i >= 256 && u.directories == s.directories && u.kernel == s.kernel
    requires d in u.directories && i < |u.directories[d].tables| && i < |u.directories[d].x86|
    ensures SameTables(s, t)
  {
    PointersAfterEnter(u.directories, t.directories, d, i, a, PhysicalAddress(u, a) + 7);
  }

  lemma SharingSizes(s0: Space, m0: seq<Page>, s: Space, m: seq<Page>, source: int, d: int, i: int,
                     supply: CloneSupply)
    requires SharingDirectory(s0, m0, s, m, source, d, i, supply) && source in s0.directories
    ensures source in s.directories && |s.directories[source].tables| == 1024 && |s.directories[source].x86| == 1024
    ensures d in s.directories && |s.directories[d].tables| == 1024 && |s.directories[d].x86| == 1024
    ensures s.kernel == s0.kernel && s.live == s0.live
  {
    SizesOf(s);
  }

  lemma SharedTables(s: Space, t: Space, d: int, source: int, i: int)
    requires t == if Pointer(s.directories, source, i) == 0 then s else Share(s, d, source, i)
    requires d in s.directories && 0 <= i < |s.directories[d].tables| && i < |s.directories[d].x86| && d != s.kernel
    ensures SameTables(s, t)
  {
    PointersAfterEnter(s.directories, Share(s, d, source, i).directories, d, i, Pointer(s.directories, source, i),
                       Register(s.directories, source, i));
  }

  /** A clone that is complete had enough frames, and no further table of the kernel if a fork was under way. */
  lemma CloneFits(s0: Space, s: Space, source: int, supply: CloneSupply, size: nat, settled: bool)
    requires Sound(s) && s.managed == size && Supplied(s0, [], source, supply) && AllSupplied(s0, s, source, supply)
    requires settled || SameTables(s0, s)
    ensures |s0.used| + FramesNeeded(s0, source, supply) <= size
    ensures settled || TablesMissing(s0, AllPages(s0, source, supply)) == {}
  {
    assert Holds(s, Shapes);
    Bitmap.UsedCount(s.used, size);
    if !settled {
      NoneWasMissing(s0, s, source, supply);
    }
  }

  /** A table is finished, and neither the processes nor the kernel's tables have changed. */
  lemma TableIsFinished(s0: Space, m0: seq<Page>, s: Space, s1: Space, u: Space, n: seq<Page>, t: Space, m: seq<Page>,
                        source: int, d: int, i: int, supply: CloneSupply)
    requires CanClone(s0, m0, source, d, supply) && 256 <= i < 1024 && Pointer(s0.directories, source, i) != 0
    requires CopyingDirectory(s0, m0, s, m, source, d, i, i + 1, supply)
    requires s1 == NewTable(s, supply.tables[i].address, d, i)
    requires CopyingTable(s0, m0, s1, u, n, source, d, i, supply.tables[i].address, 1024)
    requires t == Attach(u, d, i, supply.tables[i].address)
    ensures CopyingDirectory(s0, m0, t, n, source, d, i + 1, i + 1, supply) && t.live == s0.live && SameTables(s, t)
  {
    var a := supply.tables[i].address;
    NotLive(s0, d);
    TableFinished(s0, m0, s, s1, u, n, t, m, source, d, i, supply);
    assert t.live == s0.live by {
      LiveIsKept(s0, m0, t, n, source, d, i + 1, supply);
    }
    ReadyToEnter(s0, m0, s1, u, n, source, d, i, a);
    assert u.directories == s.directories && u.kernel == s.kernel by {
      OpenTable(s0, m0, s1, u, n, source, d, i, a, 1024);
    }
    EnteredAbove(s, u, t, d, i, a);
  }
}

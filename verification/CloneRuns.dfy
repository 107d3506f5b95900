/** A clone can be made whenever the frames suffice (src/paging.c): some run of the elementary steps ends in one. */
module CloneRuns {
  import Bitmap
  import opened PageTables
  import opened SpaceSteps
  import SpaceRuns
  import opened KernelGrowth
  import opened PageCreation
  import opened Cleaning
  import opened Cloning
  import opened CloneSteps

  lemma FreeFrame(s: Space) returns (frame: nat)
    requires Sound(s) && |s.used| < s.managed
    ensures frame < s.managed && frame !in s.used
  {
    assert Holds(s, Shapes);
    Bitmap.UsedCount(s.used, s.managed);
    frame :| 0 <= frame < s.managed && frame !in s.used;
  }

  lemma FreeFrames(s: Space) returns (first: nat, second: nat)
    requires Sound(s) && |s.used| + 1 < s.managed
    ensures first < s.managed && second < s.managed && first !in s.used && second !in s.used && first != second
  {
    assert Holds(s, Shapes);
    Bitmap.UsedCount(s.used, s.managed);
    first, second :| 0 <= first < s.managed && 0 <= second < s.managed && first !in s.used && second !in s.used
                     && first != second;
  }

  lemma OnePageCanGrow(s: Space, p: nat) returns (t: Space)
    requires Sound(s) && 1280 <= p < 0x40000 && !PageOf(s, p).present && |s.used| + Need(s, [p]) <= s.managed
    ensures GrownBy(s, t, [p]) && Sound(t) && SpaceRuns.Reaches(s, t)
  {
    var i, j := p / 1024, p % 1024;
    MissingOfOne(s, p);
    if Pointer(s.directories, s.kernel, i) != 0 {
      var frame := FreeFrame(s);
      t := KernelPageCreated(s, i, j, frame);
      OnePageGrown(s, t, p, 0, frame);
    } else {
      var tableFrame, frame := FreeFrames(s);
      LowTablesExist(s);
      t := KernelPageCreated(KernelTableAdded(s, i, tableFrame), i, j, frame);
      OnePageGrown(s, t, p, tableFrame, frame);
    }
    SpaceRuns.ReachedIsSound(s, t);
  }

  lemma LowTablesExist(s: Space)
    requires Sound(s)
    ensures Pointer(s.directories, s.kernel, 0) != 0 && Pointer(s.directories, s.kernel, 1) != 0
  {
    assert Holds(s, Layout);
  }

  /** The heap can grow by any pages that are absent, if there are frames for them and for the tables they need. */
  lemma {:induction false} PagesCanGrow(s: Space, pages: seq<nat>) returns (t: Space)
    requires Sound(s) && Growable(s, pages) && |s.used| + Need(s, pages) <= s.managed
    ensures GrownBy(s, t, pages) && Sound(t) && SpaceRuns.Reaches(s, t)
    decreases |pages|
  {
    if pages == [] {
      t := s;
      NothingIsGrown(s);
      SpaceRuns.NoStep(s);
    } else {
      var p, rest := pages[0], pages[1..];
      assert pages == [p] + rest && p in pages;
      NeedGrows(s, [p], rest);
      var u := OnePageCanGrow(s, p);
      StillGrowable(s, u, [p], rest);
      NeedSplits(s, u, [p], rest);
      t := PagesCanGrow(u, rest);
      GrownByBoth(s, u, t, [p], rest);
      SpaceRuns.ReachesOn(s, u, t);
    }
  }

  /** The pages under a table from number `j` on can be copied. */
  lemma {:induction false} EntriesCanBeCopied(s0: Space, m0: seq<Page>, s1: Space, s: Space, m: seq<Page>, source: int,
                                              d: int, i: int, a: int, j: int) returns (t: Space, n: seq<Page>)
    requires Sound(s0) && |m0| == 0x100000 && source in s0.directories && source != d && 256 <= i < 1024
    requires Pointer(s0.directories, source, i) != 0 && 0 <= j <= 1024
    requires CopyingTable(s0, m0, s1, s, m, source, d, i, a, j)
    requires |s.used| + PresentUnder(s0, source, i, j) <= s.managed
    ensures CopyingTable(s0, m0, s1, t, n, source, d, i, a, 1024)
    decreases 1024 - j
  {
    if j == 1024 {
      t, n := s, m;
    } else {
      SourceIsThere(s0, m0, s1, s, m, source, d, i, a, j);
      if EntryAt(s0, source, i, j).present {
        assert Sound(s) by {
          OpenTable(s0, m0, s1, s, m, source, d, i, a, j);
        }
        var frame := FreeFrame(s);
        var e := EntryAt(s0, source, i, j);
        var u, k := CopyEntry(s, a, j, e, frame), m[frame := m[e.frame]];
        NextEntryCopied(s0, m0, s1, s, m, u, k, source, d, i, a, j, frame);
        t, n := EntriesCanBeCopied(s0, m0, s1, u, k, source, d, i, a, j + 1);
      } else {
        NextEntrySkipped(s0, m0, s1, s, m, source, d, i, a, j);
        t, n := EntriesCanBeCopied(s0, m0, s1, s, m, source, d, i, a, j + 1);
      }
    }
  }

  /** The clone of `supply` fits in the frames there are. */
  ghost predicate Fits(s: Space, source: int, supply: CloneSupply) {
    |s.used| + FramesNeeded(s, source, supply) <= s.managed
  }

  /** If the kernel has all the tables the clone needs, it gets no other. */
  ghost predicate NoneMade(s0: Space, s: Space, source: int, supply: CloneSupply) {
    TablesMissing(s0, AllPages(s0, source, supply)) == {} ==> SameTables(s0, s)
  }

  lemma TableCanBeSupplied(s0: Space, m0: seq<Page>, s: Space, m: seq<Page>, source: int, d: int, i: int,
                           supply: CloneSupply) returns (t: Space)
    requires CanClone(s0, m0, source, d, supply) && Fits(s0, source, supply) && 256 <= i < 1024
    requires Pointer(s0.directories, source, i) != 0
    requires CopyingDirectory(s0, m0, s, m, source, d, i, i, supply) && NoneMade(s0, s, source, supply)
    ensures CopyingDirectory(s0, m0, t, m, source, d, i, i + 1, supply) && NoneMade(s0, t, source, supply)
  {
    GrowthIsDue(s0, m0, s, m, source, d, i, supply);
    var pages := supply.tables[i].pages;
    assert s.managed == s0.managed by {
      OpenDirectory(s0, m0, s, m, source, d, i, i, supply);
    }
    if |s.used| + Need(s, pages) > s.managed {
      TooFewForGrowth(s0, m0, s, m, source, d, i, supply, s.managed);
      assert false;
    }
    t := PagesCanGrow(s, pages);
    DirectoryAfterGrowth(s0, m0, s, m, t, source, d, i, supply);
    if TablesMissing(s0, AllPages(s0, source, supply)) == {} {
      if TablesMissing(s, pages) != {} {
        MissingFromTheStart(s0, m0, s, m, source, d, i, supply);
        assert false;
      }
      NoTableMade(s, t, pages);
    }
  }

  lemma TableCanBeCopied(s0: Space, m0: seq<Page>, s: Space, m: seq<Page>, source: int, d: int, i: int,
                         supply: CloneSupply) returns (t: Space, n: seq<Page>)
    requires CanClone(s0, m0, source, d, supply) && Fits(s0, source, supply) && 256 <= i < 1024
    requires Pointer(s0.directories, source, i) != 0
    requires CopyingDirectory(s0, m0, s, m, source, d, i, i + 1, supply) && NoneMade(s0, s, source, supply)
    ensures CopyingDirectory(s0, m0, t, n, source, d, i + 1, i + 1, supply) && NoneMade(s0, t, source, supply)
  {
    SourceDirectory(s0, m0, s, m, source, d, i, supply, i + 1);
    var a := supply.tables[i].address;
    var s1 := NewTable(s, a, d, i);
    TableBegun(s0, m0, s, m, s1, source, d, i, supply);
    assert s.managed == s0.managed by {
      OpenDirectory(s0, m0, s, m, source, d, i, i + 1, supply);
    }
    if |s.used| + PresentUnder(s0, source, i, 0) > s.managed {
      TooFewForTable(s0, m0, s, m, source, d, i, supply, s.managed);
      assert false;
    }
    var u;
    u, n := EntriesCanBeCopied(s0, m0, s1, s1, m, source, d, i, a, 0);
    t := Attach(u, d, i, a);
    TableIsFinished(s0, m0, s, s1, u, n, t, m, source, d, i, supply);
  }

  /** The tables from number `i` on can be copied. */
  lemma {:induction false} TablesCanBeCopied(s0: Space, m0: seq<Page>, s: Space, m: seq<Page>, source: int, d: int,
                                             i: int, supply: CloneSupply) returns (t: Space, n: seq<Page>)
    requires CanClone(s0, m0, source, d, supply) && Fits(s0, source, supply) && 256 <= i <= 1024
    requires CopyingDirectory(s0, m0, s, m, source, d, i, i, supply) && NoneMade(s0, s, source, supply)
    ensures CopyingDirectory(s0, m0, t, n, source, d, 1024, 1024, supply) && NoneMade(s0, t, source, supply)
    decreases 1024 - i
  {
    if i == 1024 {
      t, n := s, m;
    } else if Pointer(s0.directories, source, i) == 0 {
      NextTableSkipped(s0, m0, s, m, source, d, i, supply);
      t, n := TablesCanBeCopied(s0, m0, s, m, source, d, i + 1, supply);
    } else {
      var g := TableCanBeSupplied(s0, m0, s, m, source, d, i, supply);
      var u, k := TableCanBeCopied(s0, m0, g, m, source, d, i, supply);
      t, n := TablesCanBeCopied(s0, m0, u, k, source, d, i + 1, supply);
    }
  }

  /** The tables below 1 GB from number `i` on can be shared. */
  lemma {:induction false} TablesCanBeShared(s0: Space, m0: seq<Page>, s: Space, m: seq<Page>, source: int, d: int,
                                             i: int, supply: CloneSupply) returns (t: Space)
    requires CanClone(s0, m0, source, d, supply) && 0 <= i <= 256
    requires SharingDirectory(s0, m0, s, m, source, d, i, supply) && NoneMade(s0, s, source, supply)
    ensures SharingDirectory(s0, m0, t, m, source, d, 256, supply) && NoneMade(s0, t, source, supply)
    decreases 256 - i
  {
    if i == 256 {
      t := s;
    } else {
      NotLive(s0, d);
      SharingSizes(s0, m0, s, m, source, d, i, supply);
      var u := if Pointer(s.directories, source, i) == 0 then s else Share(s, d, source, i);
      NextTableShared(s0, m0, s, m, u, source, d, i, supply);
      SharedTables(s, u, d, source, i);
      t := TablesCanBeShared(s0, m0, u, m, source, d, i + 1, supply);
    }
  }

  lemma DirectoryCanBeBegun(s0: Space, m0: seq<Page>, source: int, d: int, supply: CloneSupply) returns (t: Space)
    requires CanClone(s0, m0, source, d, supply) && Fits(s0, source, supply)
    ensures CopyingDirectory(s0, m0, t, m0, source, d, 256, 256, supply) && NoneMade(s0, t, source, supply)
  {
    FirstPagesFit(s0, source, supply);
    var b := PagesCanGrow(s0, supply.directory.pages);
    t := NewDirectory(b, d);
    CloneIsBegun(s0, m0, b, source, supply, TablesMissing(s0, AllPages(s0, source, supply)) != {});
  }

  /** Whatever the heap supplies, a clone is reached whenever the frames suffice. */
  lemma CloneCanBeMade(s0: Space, m0: seq<Page>, source: int, d: int, supply: CloneSupply)
    returns (t: Space, n: seq<Page>)
    requires CanClone(s0, m0, source, d, supply) && Fits(s0, source, supply)
    ensures Sound(t) && SpaceRuns.Reaches(s0, t) && Cloned(s0, m0, t, n, source, d)
    ensures AllSupplied(s0, t, source, supply) && NoneMade(s0, t, source, supply)
  {
    var s := DirectoryCanBeBegun(s0, m0, source, d, supply);
    s, n := TablesCanBeCopied(s0, m0, s, m0, source, d, 256, supply);
    AllTablesCopied(s0, m0, s, n, source, d, supply);
    t := TablesCanBeShared(s0, m0, s, n, source, d, 0, supply);
    WholeHalfShared(s0, m0, t, n, source, d, supply);
  }
}

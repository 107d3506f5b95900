/** Giving up the pages of a process (src/paging.c): all above 1 GB but those of its kernel stack. */
module Cleaning {
  import opened PageTables
  import opened SpaceSteps
  import SpaceRuns

  /** The kernel stack in a process's address space: 0xF0000000 and the 2048 pages below. */
  predicate KernelStackPage(pageNum: int) {
    0xF0000 - 2048 <= pageNum <= 0xF0000
  }

  function CleanedEntry(e: Entry, pageNum: int): Entry {
    if e.present && !KernelStackPage(pageNum) then Zeroed() else e
  }

  /** The frames of the first `n` pages of table `a`, which is table `i` of its directory; without those of the kernel
      stack if `spared`. */
  function TableFrames(tables: Tables, a: int, i: int, n: int, spared: bool): set<nat>
    decreases n, a
  {
    if n <= 0 then {}
    else
      var e := EntryIn(tables, a, n - 1);
      if e.present && !(spared && KernelStackPage(1024 * i + n - 1))
      then TableFrames(tables, a, i, n - 1, spared) + {e.frame}
      else TableFrames(tables, a, i, n - 1, spared)
  }

  lemma {:induction false} InTableFrames(tables: Tables, a: int, i: int, n: int, spared: bool, f: nat)
    ensures f in TableFrames(tables, a, i, n, spared) <==>
            exists j :: 0 <= j < n && EntryIn(tables, a, j).present && EntryIn(tables, a, j).frame == f
                        && !(spared && KernelStackPage(1024 * i + j))
    decreases n
  {
    if n > 0 {
      InTableFrames(tables, a, i, n - 1, spared, f);
    }
  }

  /** Entries 0 to n - 1 of table `a` cleaned, one after another. */
  function CleanEntries(s: Space, a: int, i: int, n: int): Space
    decreases n, a
  {
    if n <= 0 then s
    else
      var t := CleanEntries(s, a, i, n - 1);
      if EntryIn(t.tables, a, n - 1).present && !KernelStackPage(1024 * i + n - 1) then Unmap(t, a, n - 1) else t
  }

  lemma {:induction false} CleanEntriesPointwise(s: Space, a: int, i: int, n: int)
    requires n <= 1024
    ensures var t := CleanEntries(s, a, i, n);
            && t == s.(used := s.used - TableFrames(s.tables, a, i, n, true), tables := t.tables)
            && t.tables.Keys == s.tables.Keys
            && (forall b, k :: EntryIn(t.tables, b, k)
                               == if b == a && 0 <= k < n then CleanedEntry(EntryIn(s.tables, b, k), 1024 * i + k)
                                  else EntryIn(s.tables, b, k))
            && (a in s.tables ==> |t.tables[a]| == |s.tables[a]|)
    decreases n
  {
    if n > 0 {
      CleanEntriesPointwise(s, a, i, n - 1);
      var t := CleanEntries(s, a, i, n - 1);
      if EntryIn(t.tables, a, n - 1).present && !KernelStackPage(1024 * i + n - 1) {
        EntriesAfterUnmap(t, Unmap(t, a, n - 1), a, n - 1);
      }
    }
  }

  lemma {:induction false} CleanEntriesKeeps(s: Space, d: int, i: int, n: int)
    requires Sound(s) && d in s.directories && d != s.kernel && 256 <= i && Pointer(s.directories, d, i) != 0
    requires n <= 1024
    ensures Sound(CleanEntries(s, Pointer(s.directories, d, i), i, n))
    ensures SpaceRuns.Reaches(s, CleanEntries(s, Pointer(s.directories, d, i), i, n))
    decreases n
  {
    if n <= 0 {
      SpaceRuns.NoStep(s);
    } else {
      CleanEntriesKeeps(s, d, i, n - 1);
      var a := Pointer(s.directories, d, i);
      CleanEntriesPointwise(s, a, i, n - 1);
      var t := CleanEntries(s, a, i, n - 1);
      if EntryIn(t.tables, a, n - 1).present && !KernelStackPage(1024 * i + n - 1) {
        assert Holds(s, Homes);
        SpaceRuns.OneStep(t, SpaceRuns.ReleaseEntry(a, n - 1));
        SpaceRuns.ReachesOn(s, t, Unmap(t, a, n - 1));
      }
    }
  }

  /** A page of the kernel stack is present under table `i`, so the table cannot be freed. */
  ghost predicate HoldsStack(s: Space, d: int, i: int) {
    exists j :: KernelStackPage(1024 * i + j) && EntryAt(s, d, i, j).present
  }

  /** Table `i` of a process cleaned, and freed if nothing is left. */
  ghost function CleanTable(s: Space, d: int, i: int): Space {
    if Pointer(s.directories, d, i) == 0 then s
    else
      var t := CleanEntries(s, Pointer(s.directories, d, i), i, 1024);
      if HoldsStack(s, d, i) then t else DropTable(t, d, i)
  }

  /** The tables from 1 GB up to, not including, number `n` cleaned. */
  ghost function CleanTables(s: Space, d: int, n: int): Space
    decreases n, d
  {
    if n <= 256 then s else CleanTable(CleanTables(s, d, n - 1), d, n - 1)
  }

  /** A table that holds none of the stack has nothing present once it is cleaned. */
  lemma NothingIsLeft(s: Space, t: Space, d: int, i: int)
    requires Sound(s) && !HoldsStack(s, d, i) && t.directories == s.directories
    requires forall k :: EntryIn(t.tables, Pointer(s.directories, d, i), k)
               == if 0 <= k < 1024 then CleanedEntry(EntryIn(s.tables, Pointer(s.directories, d, i), k), 1024 * i + k)
                  else EntryIn(s.tables, Pointer(s.directories, d, i), k)
    ensures forall j :: !EntryAt(t, d, i, j).present
  {
    assert Holds(s, Shapes);
    forall j ensures !EntryAt(t, d, i, j).present {
      assert !(KernelStackPage(1024 * i + j) && EntryAt(s, d, i, j).present);
    }
  }

  lemma CleanTableKeeps(s: Space, d: int, i: int)
    requires Sound(s) && d in s.directories && d != s.kernel && 256 <= i < 1024
    ensures var t := CleanTable(s, d, i);
            Sound(t) && d in t.directories && t.kernel == s.kernel && SpaceRuns.Reaches(s, t)
  {
    if Pointer(s.directories, d, i) == 0 {
      SpaceRuns.NoStep(s);
    } else {
      var a := Pointer(s.directories, d, i);
      CleanEntriesKeeps(s, d, i, 1024);
      CleanEntriesPointwise(s, a, i, 1024);
      var t := CleanEntries(s, a, i, 1024);
      if !HoldsStack(s, d, i) {
        NothingIsLeft(s, t, d, i);
        SpaceRuns.OneStep(t, SpaceRuns.FreeTable(d, i));
        SpaceRuns.ReachesOn(s, t, DropTable(t, d, i));
      }
    }
  }

  lemma {:induction false} CleanTablesKeeps(s: Space, d: int, n: int)
    requires Sound(s) && d in s.directories && d != s.kernel && n <= 1024
    ensures var t := CleanTables(s, d, n);
            Sound(t) && d in t.directories && t.kernel == s.kernel && SpaceRuns.Reaches(s, t)
    decreases n
  {
    if n <= 256 {
      SpaceRuns.NoStep(s);
    } else {
      CleanTablesKeeps(s, d, n - 1);
      CleanTableKeeps(CleanTables(s, d, n - 1), d, n - 1);
      SpaceRuns.ReachesOn(s, CleanTables(s, d, n - 1), CleanTables(s, d, n));
    }
  }

  /** The frames of the pages of a directory, from 1 GB up to table `n`; without the kernel stack if `spared`. */
  function DirectoryFrames(s: Space, d: int, n: int, spared: bool): set<nat>
    decreases n, d
  {
    if n <= 256 then {}
    else DirectoryFrames(s, d, n - 1, spared)
         + TableFrames(s.tables, Pointer(s.directories, d, n - 1), n - 1, 1024, spared)
  }

  /** Frame `f` backs page number 1024 * i + j of directory `d`, which lies above 1 GB; and is no kernel stack, if that
      is `spared`. */
  ghost predicate Backs(s: Space, d: int, f: nat, i: int, j: int, spared: bool) {
    && 256 <= i && 0 <= j < 1024 && !(spared && KernelStackPage(1024 * i + j))
    && EntryAt(s, d, i, j).present && EntryAt(s, d, i, j).frame == f
  }

  lemma {:induction false} InDirectoryFrames(s: Space, d: int, n: int, spared: bool, f: nat)
    ensures f in DirectoryFrames(s, d, n, spared) <==> exists i, j :: i < n && Backs(s, d, f, i, j, spared)
    decreases n
  {
    if n > 256 {
      InDirectoryFrames(s, d, n - 1, spared, f);
      InTableFrames(s.tables, Pointer(s.directories, d, n - 1), n - 1, 1024, spared, f);
      if f in DirectoryFrames(s, d, n, spared) && f !in DirectoryFrames(s, d, n - 1, spared) {
        var a := Pointer(s.directories, d, n - 1);
        var j :| 0 <= j < 1024 && EntryIn(s.tables, a, j).present && EntryIn(s.tables, a, j).frame == f
                 && !(spared && KernelStackPage(1024 * (n - 1) + j));
        assert Backs(s, d, f, n - 1, j, spared);
      }
      forall i, j | i < n && Backs(s, d, f, i, j, spared) ensures f in DirectoryFrames(s, d, n, spared) {
        assert i < n - 1 || EntryIn(s.tables, Pointer(s.directories, d, n - 1), j).present;
      }
    }
  }

  /** The pages of directory `d` from table `from` up to table `n` are cleaned; nothing else changes. */
  ghost predicate PagesCleaned(s: Space, t: Space, d: int, from: int, n: int) {
    forall e, k, j {:trigger EntryAt(t, e, k, j)} ::
      EntryAt(t, e, k, j) == if e == d && from <= k < n then CleanedEntry(EntryAt(s, e, k, j), 1024 * k + j)
                             else EntryAt(s, e, k, j)
  }

  /** Of the tables `from` up to `n` of directory `d` those that hold the stack stay; nothing else changes. */
  ghost predicate TablesCleaned(s: Space, t: Space, d: int, from: int, n: int) {
    && (forall e, k {:trigger Pointer(t.directories, e, k)} ::
          Pointer(t.directories, e, k) == if e == d && from <= k < n && !HoldsStack(s, d, k) then 0
                                          else Pointer(s.directories, e, k))
    && (forall e, k {:trigger Register(t.directories, e, k)} :: !(e == d && from <= k < n) ==>
          Register(t.directories, e, k) == Register(s.directories, e, k))
  }

  ghost predicate OnlyPagesChange(s: Space, t: Space) {
    t.managed == s.managed && t.kernel == s.kernel && t.live == s.live && t.owner == s.owner && t.home == s.home
  }

  ghost predicate TableCleaned(s: Space, t: Space, d: int, i: int) {
    && OnlyPagesChange(s, t) && t.used == s.used - TableFrames(s.tables, Pointer(s.directories, d, i), i, 1024, true)
    && PagesCleaned(s, t, d, i, i + 1) && TablesCleaned(s, t, d, i, i + 1)
  }

  lemma {:induction false} NoFramesUnderNull(tables: Tables, i: int, n: int)
    requires 0 !in tables
    ensures TableFrames(tables, 0, i, n, true) == {}
    decreases n
  {
    if n > 0 {
      NoFramesUnderNull(tables, i, n - 1);
    }
  }

  lemma EntriesCleaned(s: Space, t: Space, d: int, i: int)
    requires Private(s.directories, s.home) && 256 <= i && Pointer(s.directories, d, i) != 0
    requires t.directories == s.directories
    requires forall b, k :: EntryIn(t.tables, b, k)
               == if b == Pointer(s.directories, d, i) && 0 <= k < 1024
                  then CleanedEntry(EntryIn(s.tables, b, k), 1024 * i + k)
                  else EntryIn(s.tables, b, k)
    requires forall b, k :: !(0 <= k < 1024) ==> EntryIn(s.tables, b, k) == Zeroed()
    ensures PagesCleaned(s, t, d, i, i + 1)
  {
    OnlyPlace(s, d, i);
  }

  lemma DroppedPointwise(s: Space, t: Space, d: int, i: int)
    requires Private(s.directories, s.home) && Entries(s.tables) && 0 !in s.tables && t == DropTable(s, d, i)
    requires 256 <= i && Pointer(s.directories, d, i) != 0 && forall j :: !EntryAt(s, d, i, j).present
    requires d in s.directories && i < |s.directories[d].tables| && i < |s.directories[d].x86|
    ensures forall e, k, j :: EntryAt(t, e, k, j) == EntryAt(s, e, k, j)
    ensures forall e, k :: !(e == d && k == i) ==>
              && Pointer(t.directories, e, k) == Pointer(s.directories, e, k)
              && Register(t.directories, e, k) == Register(s.directories, e, k)
    ensures Pointer(t.directories, d, i) == 0
  {
    OnlyPlace(s, d, i);
    PointersAfterEnter(s.directories, t.directories, d, i, 0, 0);
    EntriesAfterDrop(s.tables, t.tables, Pointer(s.directories, d, i));
    forall e, k, j ensures EntryAt(t, e, k, j) == EntryAt(s, e, k, j) {
      assert e == d && k == i ==> !EntryAt(s, d, i, j).present;
    }
  }

  lemma NullTableIsClean(s: Space, d: int, i: int)
    requires 0 !in s.tables && Pointer(s.directories, d, i) == 0
    ensures TableCleaned(s, s, d, i)
  {
    NoFramesUnderNull(s.tables, i, 1024);
    assert forall j :: EntryAt(s, d, i, j) == Zeroed();
  }

  /** Freeing the cleaned table leaves every page as it was. */
  lemma DroppedIsClean(s: Space, m: Space, t: Space, d: int, i: int)
    requires PagesCleaned(s, m, d, i, i + 1) && m.directories == s.directories && !HoldsStack(s, d, i)
    requires forall e, k, j :: EntryAt(t, e, k, j) == EntryAt(m, e, k, j)
    requires forall e, k :: !(e == d && k == i) ==>
               && Pointer(t.directories, e, k) == Pointer(m.directories, e, k)
               && Register(t.directories, e, k) == Register(m.directories, e, k)
    requires Pointer(t.directories, d, i) == 0
    ensures PagesCleaned(s, t, d, i, i + 1) && TablesCleaned(s, t, d, i, i + 1)
  {}

  lemma CleanTablePointwise(s: Space, d: int, i: int)
    requires Sound(s) && d in s.directories && d != s.kernel && 256 <= i < 1024
    ensures TableCleaned(s, CleanTable(s, d, i), d, i)
  {
    var a := Pointer(s.directories, d, i);
    assert Holds(s, Shapes) && Holds(s, Homes);
    if a == 0 {
      NullTableIsClean(s, d, i);
    } else {
      var m, t := CleanEntries(s, a, i, 1024), CleanTable(s, d, i);
      CleanEntriesPointwise(s, a, i, 1024);
      EntriesCleaned(s, m, d, i);
      if HoldsStack(s, d, i) {
        assert t == m && TablesCleaned(s, t, d, i, i + 1);
      } else {
        assert Entries(m.tables) by {
          CleanEntriesKeeps(s, d, i, 1024);
          assert Holds(m, Forms);
        }
        NothingIsLeft(s, m, d, i);
        DroppedPointwise(m, t, d, i);
        DroppedIsClean(s, m, t, d, i);
      }
    }
  }

  /** What is left of directory `d` once its tables from 1 GB up to number `n` are cleaned: of its pages only the
      kernel stack, of its tables only those the stack needs; exactly the frames of the other pages are free again, and
      no other directory sees a change. */
  ghost predicate Cleaned(s: Space, t: Space, d: int, n: int) {
    && OnlyPagesChange(s, t) && t.used == s.used - DirectoryFrames(s, d, n, true)
    && PagesCleaned(s, t, d, 256, n) && TablesCleaned(s, t, d, 256, n)
  }

  lemma {:induction false} CleanTablesPointwise(s: Space, d: int, n: int)
    requires Sound(s) && d in s.directories && d != s.kernel && n <= 1024
    ensures Cleaned(s, CleanTables(s, d, n), d, n)
    decreases n
  {
    if n > 256 {
      CleanTablesKeeps(s, d, n - 1);
      CleanTablesPointwise(s, d, n - 1);
      NextTableCleaned(s, CleanTables(s, d, n - 1), CleanTables(s, d, n), d, n - 1, n);
    } else {
      NothingIsCleaned(s, d, n);
    }
  }

  lemma NextTableCleaned(s: Space, m: Space, t: Space, d: int, n: int, next: int)
    requires Sound(m) && d in m.directories && d != m.kernel && 256 <= n < 1024 && next == n + 1
    requires Cleaned(s, m, d, n) && t == CleanTable(m, d, n)
    ensures Cleaned(s, t, d, next)
  {
    CleanTablePointwise(m, d, n);
    OneMoreCleaned(s, m, t, d, n, next);
  }

  lemma TakenAway(used: set<nat>, a: set<nat>, b: set<nat>)
    ensures used - a - b == used - (a + b)
  {}

  lemma OneMoreCleaned(s: Space, m: Space, t: Space, d: int, n: int, next: int)
    requires n >= 256 && next == n + 1 && Cleaned(s, m, d, n) && TableCleaned(m, t, d, n)
    ensures Cleaned(s, t, d, next)
  {
    assert t.used == s.used - DirectoryFrames(s, d, n + 1, true) by {
      UntouchedTable(s, m, d, n);
      TakenAway(s.used, DirectoryFrames(s, d, n, true),
                TableFrames(s.tables, Pointer(s.directories, d, n), n, 1024, true));
    }
    assert PagesCleaned(s, t, d, 256, n + 1) by {
      MorePagesCleaned(s, m, t, d, n);
    }
    assert TablesCleaned(s, t, d, 256, n + 1) by {
      UntouchedTable(s, m, d, n);
      MoreTablesCleaned(s, m, t, d, n);
    }
  }

  lemma NothingIsCleaned(s: Space, d: int, n: int)
    requires n <= 256
    ensures CleanTables(s, d, n) == s && Cleaned(s, s, d, n)
  {}

  /** The table whose turn is next is as it was. */
  lemma UntouchedTable(s: Space, m: Space, d: int, n: int)
    requires n >= 256 && PagesCleaned(s, m, d, 256, n)
    ensures TableFrames(m.tables, Pointer(m.directories, d, n), n, 1024, true)
            == TableFrames(s.tables, Pointer(s.directories, d, n), n, 1024, true)
    ensures HoldsStack(m, d, n) == HoldsStack(s, d, n)
  {
    assert forall j :: EntryAt(m, d, n, j) == EntryAt(s, d, n, j);
    SameTableFrames(s, m, d, n, 1024, true);
    SameStack(s, m, d, n);
  }

  lemma {:induction false} SameTableFrames(s: Space, t: Space, d: int, i: int, n: int, spared: bool)
    requires forall j :: EntryAt(t, d, i, j) == EntryAt(s, d, i, j)
    ensures TableFrames(t.tables, Pointer(t.directories, d, i), i, n, spared)
            == TableFrames(s.tables, Pointer(s.directories, d, i), i, n, spared)
    decreases n
  {
    if n > 0 {
      SameTableFrames(s, t, d, i, n - 1, spared);
      assert EntryAt(t, d, i, n - 1) == EntryAt(s, d, i, n - 1);
    }
  }

  lemma SameStack(s: Space, t: Space, d: int, i: int)
    requires forall j :: EntryAt(t, d, i, j) == EntryAt(s, d, i, j)
    ensures HoldsStack(t, d, i) == HoldsStack(s, d, i)
  {}

  lemma MorePagesCleaned(s: Space, m: Space, t: Space, d: int, n: int)
    requires n >= 256 && PagesCleaned(s, m, d, 256, n) && PagesCleaned(m, t, d, n, n + 1)
    ensures PagesCleaned(s, t, d, 256, n + 1)
  {}

  lemma MoreTablesCleaned(s: Space, m: Space, t: Space, d: int, n: int)
    requires n >= 256 && TablesCleaned(s, m, d, 256, n) && TablesCleaned(m, t, d, n, n + 1)
    requires HoldsStack(m, d, n) == HoldsStack(s, d, n)
    ensures TablesCleaned(s, t, d, 256, n + 1)
  {}

  /* The same in numbers, and for the tables. */

  /** Table `a` is entered above 1 GB in directory `d`, under number `i`, and holds no present page of the kernel stack,
      that is, none numbered 0xEF800 to 0xF0000. */
  ghost predicate WithoutStack(s: Space, d: int, i: int, a: int) {
    && 256 <= i < 1024 && Pointer(s.directories, d, i) == a && a != 0
    && forall j :: 0 <= j < 1024 && 0xEF800 <= 1024 * i + j <= 0xF0000 ==> !EntryAt(s, d, i, j).present
  }

  /** Exactly those tables are released. */
  ghost predicate TablesReleased(s: Space, t: Space, d: int, n: int) {
    forall a :: a in t.tables <==> a in s.tables && !exists i :: i < n && WithoutStack(s, d, i, a)
  }

  lemma WithoutStackIs(s: Space, d: int, i: int)
    requires Sound(s) && 256 <= i < 1024 && Pointer(s.directories, d, i) != 0
    ensures WithoutStack(s, d, i, Pointer(s.directories, d, i)) == !HoldsStack(s, d, i)
  {
    assert Holds(s, Shapes);
  }

  lemma TableReleased(s: Space, d: int, i: int)
    requires Sound(s) && d in s.directories && d != s.kernel && 256 <= i < 1024
    ensures CleanTable(s, d, i).tables.Keys
            == if Pointer(s.directories, d, i) == 0 || HoldsStack(s, d, i) then s.tables.Keys
               else s.tables.Keys - {Pointer(s.directories, d, i)}
  {
    CleanEntriesPointwise(s, Pointer(s.directories, d, i), i, 1024);
  }

  lemma {:induction false} TablesAreReleased(s: Space, d: int, n: int)
    requires Sound(s) && d in s.directories && d != s.kernel && n <= 1024
    ensures TablesReleased(s, CleanTables(s, d, n), d, n)
    decreases n
  {
    if n > 256 {
      TablesAreReleased(s, d, n - 1);
      OneMoreReleased(s, CleanTables(s, d, n - 1), d, n - 1, n);
    } else {
      assert forall i, a :: i < n ==> !WithoutStack(s, d, i, a);
    }
  }

  lemma OneMoreReleased(s: Space, m: Space, d: int, i: int, n: int)
    requires Sound(s) && d in s.directories && d != s.kernel && 256 <= i < 1024 && n == i + 1
    requires m == CleanTables(s, d, i) && TablesReleased(s, m, d, i)
    ensures TablesReleased(s, CleanTable(m, d, i), d, n)
  {
    CleanTablesKeeps(s, d, i);
    CleanTablesPointwise(s, d, i);
    UntouchedTable(s, m, d, i);
    TableReleased(m, d, i);
    var a := Pointer(s.directories, d, i);
    assert Pointer(m.directories, d, i) == a;
    if a != 0 {
      WithoutStackIs(s, d, i);
    }
    forall b ensures b in CleanTable(m, d, i).tables <==>
                     b in s.tables && !exists k :: k < n && WithoutStack(s, d, k, b)
    {
      assert (exists k :: k < n && WithoutStack(s, d, k, b))
             <==> WithoutStack(s, d, i, b) || exists k :: k < i && WithoutStack(s, d, k, b);
    }
  }

  /** What cleaning leaves of directory `d`, in numbers: of its pages above 1 GB those numbered 0xEF800 to 0xF0000 stay
      as they are and no other is present; exactly the frames of the others are free again; exactly the tables without
      such a page are released and no longer entered; all other pages and pointers are as they were. */
  ghost predicate EmptiedOut(s: Space, t: Space, d: int) {
    && (forall i, j {:trigger EntryAt(t, d, i, j)} :: 256 <= i < 1024 && 0 <= j < 1024 ==>
          if 0xEF800 <= 1024 * i + j <= 0xF0000 then EntryAt(t, d, i, j) == EntryAt(s, d, i, j)
          else !EntryAt(t, d, i, j).present)
    && (forall f: nat {:trigger f in t.used} :: f in t.used <==> f in s.used && !GivenUp(s, d, f))
    && (forall a {:trigger a in t.tables} :: a in t.tables <==> a in s.tables && !exists i :: WithoutStack(s, d, i, a))
    && (forall i {:trigger Pointer(t.directories, d, i)} :: 256 <= i < 1024 ==>
          Pointer(t.directories, d, i)
          == if WithoutStack(s, d, i, Pointer(s.directories, d, i)) then 0 else Pointer(s.directories, d, i))
    && (forall e, i, j {:trigger EntryAt(t, e, i, j)} :: e != d || i < 256 ==>
          EntryAt(t, e, i, j) == EntryAt(s, e, i, j))
    && (forall e, i {:trigger Pointer(t.directories, e, i)} :: e != d || i < 256 ==>
          Pointer(t.directories, e, i) == Pointer(s.directories, e, i))
  }

  /** Frame `f` backs a page above 1 GB outside the kernel stack. */
  ghost predicate GivenUp(s: Space, d: int, f: nat) {
    exists i, j {:trigger EntryAt(s, d, i, j)} ::
      && 256 <= i < 1024 && 0 <= j < 1024 && !(0xEF800 <= 1024 * i + j <= 0xF0000)
      && EntryAt(s, d, i, j).present && EntryAt(s, d, i, j).frame == f
  }

  lemma GivenUpIs(s: Space, d: int, f: nat)
    ensures GivenUp(s, d, f) <==> f in DirectoryFrames(s, d, 1024, true)
  {
    InDirectoryFrames(s, d, 1024, true, f);
    if GivenUp(s, d, f) {
      var i, j :| 256 <= i < 1024 && 0 <= j < 1024 && !(0xEF800 <= 1024 * i + j <= 0xF0000)
                  && EntryAt(s, d, i, j).present && EntryAt(s, d, i, j).frame == f;
      assert Backs(s, d, f, i, j, true);
    }
    if exists i, j :: i < 1024 && Backs(s, d, f, i, j, true) {
      var i, j :| i < 1024 && Backs(s, d, f, i, j, true);
      assert EntryAt(s, d, i, j).present;
    }
  }

  lemma CleanEmptiesOut(s: Space, d: int)
    requires Sound(s) && d in s.directories && d != s.kernel
    ensures EmptiedOut(s, CleanTables(s, d, 1024), d)
  {
    var t := CleanTables(s, d, 1024);
    CleanTablesPointwise(s, d, 1024);
    TablesAreReleased(s, d, 1024);
    forall f: nat ensures f in t.used <==> f in s.used && !GivenUp(s, d, f) {
      GivenUpIs(s, d, f);
    }
    forall a ensures a in t.tables <==> a in s.tables && !exists i :: WithoutStack(s, d, i, a) {
      assert (exists i :: WithoutStack(s, d, i, a)) <==> exists i :: i < 1024 && WithoutStack(s, d, i, a);
    }
    PointersReleased(s, t, d);
    PagesEmptied(s, t, d);
  }

  lemma PointersReleased(s: Space, t: Space, d: int)
    requires Sound(s) && TablesCleaned(s, t, d, 256, 1024)
    ensures forall i {:trigger Pointer(t.directories, d, i)} :: 256 <= i < 1024 ==>
              Pointer(t.directories, d, i)
              == if WithoutStack(s, d, i, Pointer(s.directories, d, i)) then 0 else Pointer(s.directories, d, i)
  {
    forall i | 256 <= i < 1024
      ensures Pointer(t.directories, d, i)
              == if WithoutStack(s, d, i, Pointer(s.directories, d, i)) then 0 else Pointer(s.directories, d, i)
    {
      if Pointer(s.directories, d, i) != 0 {
        WithoutStackIs(s, d, i);
      }
    }
  }

  lemma PagesEmptied(s: Space, t: Space, d: int)
    requires PagesCleaned(s, t, d, 256, 1024)
    ensures forall i, j {:trigger EntryAt(t, d, i, j)} :: 256 <= i < 1024 && 0 <= j < 1024 ==>
              if 0xEF800 <= 1024 * i + j <= 0xF0000 then EntryAt(t, d, i, j) == EntryAt(s, d, i, j)
              else !EntryAt(t, d, i, j).present
  {}

  /** Which processes are live makes no difference. */
  lemma StillEmptiedOut(s: Space, t: Space, d: int)
    requires EmptiedOut(s, t, d)
    ensures forall live :: EmptiedOut(s, t.(live := live), d)
  {
    forall live ensures EmptiedOut(s, t.(live := live), d) {
      var u := t.(live := live);
      assert forall e, i, j :: EntryAt(u, e, i, j) == EntryAt(t, e, i, j);
    }
  }

  /* What the loops meet. */

  lemma CleanedTableIs(s: Space, d: int, i: int)
    requires Sound(s) && d in s.directories && d != s.kernel && 256 <= i < 1024
    ensures Pointer(s.directories, d, i) == 0 ==> CleanTable(s, d, i) == s
    ensures Pointer(s.directories, d, i) != 0 ==>
              var m := CleanEntries(s, Pointer(s.directories, d, i), i, 1024);
              CleanTable(s, d, i) == if HoldsStack(s, d, i) then m else DropTable(m, d, i)
    ensures Sound(CleanTable(s, d, i)) && d in CleanTable(s, d, i).directories
  {
    CleanTableKeeps(s, d, i);
  }

  /** A page of the kernel stack is present among the first `n` of table `a`. */
  ghost predicate StackBelow(s: Space, a: int, i: int, n: int) {
    exists j :: 0 <= j < n && KernelStackPage(1024 * i + j) && EntryIn(s.tables, a, j).present
  }

  lemma StackBelowIsHeld(s: Space, d: int, i: int)
    requires Sound(s)
    ensures StackBelow(s, Pointer(s.directories, d, i), i, 1024) == HoldsStack(s, d, i)
  {
    assert Holds(s, Shapes);
    assert forall j :: EntryAt(s, d, i, j) == EntryIn(s.tables, Pointer(s.directories, d, i), j);
  }

  /** What the loop meets at entry `j`: the entry as it was at the start, and, if it is present, a managed frame whose
      bit is set. */
  lemma EntryToClean(s: Space, d: int, i: int, j: int)
    requires Sound(s) && d in s.directories && d != s.kernel && 256 <= i && 0 <= j < 1024
    requires Pointer(s.directories, d, i) != 0
    ensures var a := Pointer(s.directories, d, i);
            var t := CleanEntries(s, a, i, j);
            var e := EntryIn(s.tables, a, j);
            && a in t.tables && |t.tables[a]| == 1024 && t.tables[a][j] == e
            && (e.present ==> e.frame < s.managed && e.frame in t.used)
            && CleanEntries(s, a, i, j + 1)
               == (if e.present && !KernelStackPage(1024 * i + j) then Unmap(t, a, j) else t)
            && Sound(CleanEntries(s, a, i, j + 1))
  {
    var a := Pointer(s.directories, d, i);
    TableIsThere(s, d, i);
    CleanEntriesPointwise(s, a, i, j);
    CleanEntriesKeeps(s, d, i, j);
    CleanEntriesKeeps(s, d, i, j + 1);
    var t := CleanEntries(s, a, i, j);
    assert Holds(t, Homes) && Holds(t, ProcessPages) && Holds(t, Owners);
    assert EntryIn(t.tables, a, j) == t.tables[a][j];
  }

  lemma LiveWhileCleaning(s: Space, d: int)
    requires Sound(s) && d in s.directories && d != s.kernel
    ensures CleanTables(s, d, 1024).live == s.live
  {
    CleanTablesPointwise(s, d, 1024);
  }
}

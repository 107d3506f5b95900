/** What the invariant of the address spaces means for processes (src/paging.c, src/process.c). */
module SpaceLaws {
  import opened PageTables
  import opened SpaceSteps
  import opened Cleaning
  import opened Cloning
  import opened KernelGrowth

  /** What a process reads at a page, and the memory once it has written one. */
  function ReadPage(s: Space, m: seq<Page>, d: int, i: int, j: int): Page
    requires EntryAt(s, d, i, j).frame < |m|
  {
    m[EntryAt(s, d, i, j).frame]
  }

  function WritePage(s: Space, m: seq<Page>, d: int, i: int, j: int, page: Page): seq<Page>
    requires EntryAt(s, d, i, j).frame < |m|
  {
    m[EntryAt(s, d, i, j).frame := page]
  }

  /** A page of a process above 1 GB lies in a managed frame of its own, whose bit is set: no other page of any
      address space, above or below 1 GB, lies in the same frame. */
  lemma PageHasItsOwnFrame(s: Space, d: int, i: int, j: int, e: int, k: int, l: int)
    requires Sound(s) && d != s.kernel && 256 <= i && EntryAt(s, d, i, j).present
    requires EntryAt(s, e, k, l).present && !(e == d && k == i && l == j)
    ensures EntryAt(s, d, i, j).frame < s.managed && EntryAt(s, d, i, j).frame in s.used
    ensures EntryAt(s, e, k, l).frame != EntryAt(s, d, i, j).frame
  {
    assert Holds(s, Shapes) && Holds(s, Homes) && Holds(s, ProcessPages) && Holds(s, Owners);
    var a, b := Pointer(s.directories, d, i), Pointer(s.directories, e, k);
    assert a in s.home && s.home[a] == Place(d, i);
    assert b in s.home ==> s.home[b] == Place(e, k);
    if EntryAt(s, e, k, l).frame == EntryAt(s, d, i, j).frame {
      NoFrameMappedTwice(s, a, j, b, l);
    }
  }

  /** So a process that writes above 1 GB changes what is read at that page, and at no other page of any process. */
  lemma WritesArePrivate(s: Space, m: seq<Page>, d: int, i: int, j: int, page: Page, e: int, k: int, l: int)
    requires Sound(s) && |m| == 0x100000 && d != s.kernel && 256 <= i
    requires EntryAt(s, d, i, j).present && EntryAt(s, e, k, l).present
    ensures EntryAt(s, d, i, j).frame < |m| && EntryAt(s, e, k, l).frame < |m|
    ensures ReadPage(s, WritePage(s, m, d, i, j, page), e, k, l)
            == if e == d && k == i && l == j then page else ReadPage(s, m, e, k, l)
  {
    FrameOfPage(s, d, i, j);
    FrameOfPage(s, e, k, l);
    if !(e == d && k == i && l == j) {
      PageHasItsOwnFrame(s, d, i, j, e, k, l);
    }
  }

  /** The clone reads, page by page above 1 GB, what the source read; the source still does; and every frame of the
      clone was free before. */
  lemma CloneReadsTheSame(s0: Space, m0: seq<Page>, s: Space, m: seq<Page>, source: int, d: int, i: int, j: int)
    requires Sound(s0) && Sound(s) && |m0| == |m| == 0x100000 && Cloned(s0, m0, s, m, source, d) && source != d
    requires d != s.kernel && 256 <= i < 1024 && 0 <= j < 1024
    ensures EntryAt(s, d, i, j).present == EntryAt(s0, source, i, j).present
    ensures EntryAt(s, source, i, j) == EntryAt(s0, source, i, j)
    ensures EntryAt(s0, source, i, j).present ==>
              && EntryAt(s, d, i, j).frame !in s0.used && EntryAt(s, d, i, j).frame < s.managed
              && EntryAt(s, d, i, j) == EntryAt(s0, source, i, j).(frame := EntryAt(s, d, i, j).frame, userMode := true)
              && EntryAt(s0, source, i, j).frame < |m0|
              && ReadPage(s, m, d, i, j) == ReadPage(s0, m0, source, i, j) == ReadPage(s, m, source, i, j)
  {
    assert Copied(s0, m0, s, m, EntryAt(s0, source, i, j), EntryAt(s, d, i, j));
    SizesOf(s0);
    SizesOf(s);
    assert Holds(s0, Roots) && Holds(s0, Homes);
    assert Pointer(s.directories, source, i) == Pointer(s0.directories, source, i);
    assert EntryAt(s, source, i, j) == EntryAt(s0, source, i, j);
    if EntryAt(s0, source, i, j).present {
      FrameOfPage(s0, source, i, j);
    }
  }

  /** All live processes agree below 1 GB with the kernel and with one another. */
  lemma LiveAgree(s: Space, d: int, e: int)
    requires Sound(s) && d in s.live && e in s.live
    ensures SameKernelHalf(s.directories, d, e) && SameKernelHalf(s.directories, d, s.kernel)
  {
    assert Holds(s, Sharing);
  }

  /** What is present below 1 GB is mapped to the same frame for every live process. */
  lemma KernelPagesAreShared(s: Space, d: int, e: int, i: int, j: int)
    requires Sound(s) && d in s.live && e in s.live && 0 <= i < 256
    ensures EntryAt(s, d, i, j) == EntryAt(s, e, i, j) == EntryAt(s, s.kernel, i, j)
  {
    LiveAgree(s, d, e);
  }

  /** The processor's pointer to a table is the table's physical address, marked present, writable and for user mode. */
  lemma ProcessorFollowsTheKernel(s: Space, d: int, i: int)
    requires Sound(s) && d in s.directories && 0 <= i < 1024 && Pointer(s.directories, d, i) != 0
    ensures var a := Pointer(s.directories, d, i);
            && a % 4096 == 0 && EntryAt(s, s.kernel, a / 4096 / 1024, a / 4096 % 1024).present
            && Register(s.directories, d, i) == 4096 * EntryAt(s, s.kernel, a / 4096 / 1024, a / 4096 % 1024).frame + 7
  {
    assert Holds(s, Translation);
    var a := Pointer(s.directories, d, i);
    assert Backed(s, a);
    assert (EntryOf(s, a).frame * 0x1000) % 4096 == 0;
  }

  lemma StackFrameIsFreed(s: Space, d: int, f: nat)
    requires Sound(s) && d in s.directories && d != s.kernel
    ensures f in CleanTables(s, d, 1024).used <==> f in s.used && !exists i, j :: i < 1024 && Backs(s, d, f, i, j, true)
  {
    CleanTablesPointwise(s, d, 1024);
    InDirectoryFrames(s, d, 1024, true, f);
  }

  /** Cleaning frees exactly the frames of the pages above 1 GB that are no kernel stack: that are not numbered 0xEF800
      to 0xF0000. */
  lemma CleanFreesExactly(s: Space, d: int, f: nat)
    requires Sound(s) && d in s.directories && d != s.kernel
    ensures f in CleanTables(s, d, 1024).used <==>
            f in s.used && !exists i, j :: 256 <= i < 1024 && 0 <= j < 1024 && !(0xEF800 <= 1024 * i + j <= 0xF0000)
                                           && EntryAt(s, d, i, j).present && EntryAt(s, d, i, j).frame == f
  {
    CleanEmptiesOut(s, d);
    assert f in CleanTables(s, d, 1024).used <==> f in s.used && !GivenUp(s, d, f);
  }

  /** Afterwards, above 1 GB, exactly the kernel stack is present; other address spaces are as they were. */
  lemma CleanLeavesTheStack(s: Space, d: int, e: int, i: int, j: int)
    requires Sound(s) && d in s.directories && d != s.kernel && 0 <= i < 1024
    ensures var t := CleanTables(s, d, 1024);
            EntryAt(t, e, i, j)
            == if e == d && i >= 256 && !(0xEF800 <= 1024 * i + j <= 0xF0000) then Entry(false, false, false, 0, 0)
               else EntryAt(s, e, i, j)
  {
    CleanTablesPointwise(s, d, 1024);
    assert Holds(s, Forms);
  }

  /** The frames of the kernel stack stay in use: an exit does not give them back. */
  lemma StackFramesStay(s: Space, d: int, i: int, j: int)
    requires Sound(s) && d in s.directories && d != s.kernel && 256 <= i < 1024
    requires 0xEF800 <= 1024 * i + j <= 0xF0000 && EntryAt(s, d, i, j).present
    ensures EntryAt(s, d, i, j).frame in CleanTables(s, d, 1024).used
  {
    var f := EntryAt(s, d, i, j).frame;
    StackFrameIsFreed(s, d, f);
    assert Holds(s, Shapes) && Holds(s, Homes) && Holds(s, ProcessPages) && Holds(s, Owners);
    forall k, l | k < 1024 ensures !Backs(s, d, f, k, l, true) {
      if EntryAt(s, d, k, l).present && 256 <= k && !(k == i && l == j) {
        PageHasItsOwnFrame(s, d, i, j, d, k, l);
      }
    }
  }

  /** A clone that is cleaned again leaves in use exactly what was in use before, the frames of the clone's kernel
      stack, and the pages the kernel has got meanwhile. */
  lemma CloneThenClean(s0: Space, m0: seq<Page>, s: Space, m: seq<Page>, source: int, d: int, f: nat)
    requires Sound(s0) && Sound(s) && Cloned(s0, m0, s, m, source, d) && d !in s0.directories
    ensures f in CleanTables(s, d, 1024).used <==>
            || f in s0.used || GrowthFrame(s0, s, f)
            || exists i, j :: 0xEF800 <= 1024 * i + j <= 0xF0000 && i < 1024 && Backs(s, d, f, i, j, false)
  {
    assert Holds(s0, Shapes);
    StackFrameIsFreed(s, d, f);
    InDirectoryFrames(s, d, 1024, false, f);
    if exists i, j :: i < 1024 && Backs(s, d, f, i, j, true) {
      var i, j :| i < 1024 && Backs(s, d, f, i, j, true);
      OnlyUnsparedPage(s0, m0, s, m, source, d, i, j, f);
    } else if f in DirectoryFrames(s, d, 1024, false) {
      var i, j :| i < 1024 && Backs(s, d, f, i, j, false);
      assert !Backs(s, d, f, i, j, true);
    }
  }

  /** A frame of the clone that is no kernel stack was free before, belongs to no new kernel page, and to no other page
      of the clone. */
  lemma OnlyUnsparedPage(s0: Space, m0: seq<Page>, s: Space, m: seq<Page>, source: int, d: int, i: int, j: int, f: nat)
    requires Sound(s) && Cloned(s0, m0, s, m, source, d) && d != s.kernel && i < 1024
    requires Backs(s, d, f, i, j, true)
    ensures f !in s0.used && !GrowthFrame(s0, s, f)
    ensures !exists k, l :: 0xEF800 <= 1024 * k + l <= 0xF0000 && k < 1024 && Backs(s, d, f, k, l, false)
  {
    assert Copied(s0, m0, s, m, EntryAt(s0, source, i, j), EntryAt(s, d, i, j));
    forall k, l | EntryAt(s, s.kernel, k, l).present ensures EntryAt(s, s.kernel, k, l).frame != f {
      PageHasItsOwnFrame(s, d, i, j, s.kernel, k, l);
    }
    forall k, l | 0xEF800 <= 1024 * k + l <= 0xF0000 && k < 1024 ensures !Backs(s, d, f, k, l, false) {
      if Backs(s, d, f, k, l, false) {
        PageHasItsOwnFrame(s, d, i, j, d, k, l);
      }
    }
  }
}

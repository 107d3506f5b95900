/** The kernel's hold on frames, address spaces and processes (src/paging.c, src/process.c). */
module AddressSpaces {
  import opened Wrappers
  import Bitmap
  import opened PageTables
  import opened SpaceSteps
  import SpaceRuns
  import opened KernelGrowth
  import opened PageCreation
  import opened ProcessRing
  import opened Cleaning
  import opened Cloning
  import opened CloneSteps
  import opened Forking

  class Kernel {
    const frames: Bitmap.Bitmap
    const kernelDirectory: int
    var tables: Tables
    var directories: Directories
    var memory: seq<Page>
    var processes: Processes
    var activeProcess: int
    var currentPid: nat
    /** The processes in turn order. */
    ghost var ring: seq<int>
    /** What the fields amount to, with the owners of frames and tables. */
    ghost var space: Space

    ghost predicate Tied()
      reads this, frames
    {
      && space.managed == frames.Size() && space.used == frames.used
      && space.tables == tables && space.directories == directories && space.kernel == kernelDirectory
    }

    ghost predicate Ringed()
      reads this
    {
      && Cycle(processes, ring) && ring[0] == activeProcess && Housed(processes, ring, space.live)
      && Numbered(processes, currentPid)
    }

    /** Every process has its address space: no fork is under way. */
    ghost predicate Settled()
      reads this
    {
      |space.live| == |ring|
    }

    ghost predicate Valid()
      reads this, frames, frames.data
    {
      frames.Valid() && Tied() && Ringed() && Sound(space) && |memory| == 0x100000
    }

    /** After boot: the address spaces are sound and one process runs, linked to itself. It has pid 1. */
    constructor (frames: Bitmap.Bitmap, memory: seq<Page>, first: int, process: Process, kernelDirectory: int,
                 tables: Tables, directories: Directories, ghost space: Space)
      requires frames.Valid() && |memory| == 0x100000 && process.previous == first && process.next == first
      requires space.managed == frames.Size() && space.used == frames.used && space.kernel == kernelDirectory
      requires space.tables == tables && space.directories == directories
      requires process.directory.Some? && space.live == [process.directory.value] && Sound(space)
      ensures Valid() && Settled() && this.frames == frames && ring == [first]
      ensures this.space == space && this.memory == memory
      ensures first in processes && processes[first].pid == 1 && currentPid == 2
    {
      this.frames, this.kernelDirectory, this.tables, this.directories := frames, kernelDirectory, tables, directories;
      this.memory, processes, activeProcess, currentPid := memory, map[first := process.(pid := 1)], first, 2;
      this.ring, this.space := [first], space;
      AloneIsCycle(first, process.(pid := 1));
    }

    /** The first free frame, taken; None is the panic on a full bitmap. */
    method TakeFrame() returns (frame: Option<nat>)
      requires frames.Valid()
      modifies frames, frames.data
      ensures frames.Valid()
      ensures match frame
              case Some(f) =>
                && f < frames.Size() && f !in old(frames.used) && frames.used == old(frames.used) + {f}
                && (forall g :: 0 <= g < f ==> g in old(frames.used))
              case None => frames.used == old(frames.used) && forall g :: 0 <= g < frames.Size() ==> g in frames.used
    {
      frame := frames.GetFirstClear();
      if frame.Some? {
        frames.Set(frame.value);
      }
    }

    /** The physical address behind a backed address of the kernel's address space. */
    method PhysicalAddressOf(address: int) returns (physical: int)
      requires Tied() && Backed(space, address) && 0 !in tables
      ensures physical == PhysicalAddress(space, address)
    {
      var pageNum, pageOffset := address / 4096, address % 4096;
      var a := directories[kernelDirectory].tables[pageNum / 1024];
      physical := tables[a][pageNum % 1024].frame * 0x1000 + pageOffset;
    }

    /** Maps an entry that is not present to a free frame; None is a panic. */
    method FillEntry(a: int, j: int, userMode: bool) returns (frame: Option<nat>)
      requires frames.Valid() && Tied() && a in tables && 0 <= j < |tables[a]|
      modifies this`tables, this`space, frames, frames.data
      ensures frames.Valid() && Tied()
      ensures frame.None? <==> old(tables[a][j].present) || forall g :: 0 <= g < frames.Size() ==> g in old(frames.used)
      ensures frame.None? ==> space == old(space)
      ensures frame.Some? ==>
                && frame.value < frames.Size() && frame.value !in old(frames.used)
                && space == MapFrame(old(space), a, j, Filled(old(tables[a][j]), userMode, frame.value))
                && (forall g :: 0 <= g < frame.value ==> g in old(frames.used))
    {
      var entry := tables[a][j];
      if entry.present {
        return None;
      }
      frame := TakeFrame();
      if frame.Some? {
        tables := tables[a := tables[a][j := Filled(entry, userMode, frame.value)]];
        space := MapFrame(space, a, j, Filled(entry, userMode, frame.value));
      }
    }

    /** A blank table on the kernel's heap, not entered anywhere yet. */
    method MakeTable(directory: int, i: int, tableAddress: int)
      requires Tied()
      modifies this`tables, this`space
      ensures Tied() && space == NewTable(old(space), tableAddress, directory, i)
    {
      tables := tables[tableAddress := BlankTable()];
      space := NewTable(space, tableAddress, directory, i);
    }

    /** Enters a table into a process's directory, for the kernel and for the processor. */
    method EnterTable(directory: int, i: int, a: int)
      requires Tied() && 0 !in tables && Backed(space, a)
      requires directory in directories && 0 <= i < |directories[directory].tables| && i < |directories[directory].x86|
      modifies this`directories, this`space
      ensures Tied() && space == Attach(old(space), directory, i, a)
    {
      var address := PhysicalAddressOf(a);
      directories := directories[directory := Enter(directories[directory], i, a, address + 7)];
      space := Attach(space, directory, i, a);
    }

    /** Makes a blank table and enters it at once. */
    method AddTable(directory: int, i: int, tableAddress: int)
      requires Tied() && 0 !in tables && FromHeap(space, tableAddress)
      requires directory in directories && 0 <= i < |directories[directory].tables| && i < |directories[directory].x86|
      modifies this`tables, this`directories, this`space
      ensures Tied() && space == TableAdded(old(space), directory, i, tableAddress)
    {
      NewTableIsBacked(space, NewTable(space, tableAddress, directory, i), tableAddress, directory, i);
      MakeTable(directory, i, tableAddress);
      EnterTable(directory, i, tableAddress);
    }

    /** Maps one page for the kernel's heap. */
    method GrowByPage(p: nat) returns (ok: bool)
      requires Valid() && Growable(space, [p])
      modifies this`tables, this`directories, this`space, frames, frames.data
      ensures ok <==> && |old(frames.used)| + Need(old(space), [p]) <= frames.Size()
                      && (old(Settled()) || TablesMissing(old(space), [p]) == {})
      ensures ok ==> Valid() && GrownBy(old(space), space, [p]) && SpaceRuns.Reaches(old(space), space)
    {
      ghost var s := space;
      PageToMap(s, p, frames.Size());
      ghost var tableFrame;
      var frame;
      frame, tableFrame := CreateKernelPage(p);
      ok := frame.Some?;
      if ok {
        OnePageGrown(s, space, p, tableFrame, frame.value);
      }
    }

    /** Maps one page after another for the kernel's heap. It fails if frames run out, or if a table has to be made
        while a process has no address space to enter it into. */
    method GrowHeap(pages: seq<nat>) returns (ok: bool)
      requires Valid() && Growable(space, pages)
      modifies this`tables, this`directories, this`space, frames, frames.data
      ensures ok <==> && |old(frames.used)| + Need(old(space), pages) <= frames.Size()
                      && (old(Settled()) || TablesMissing(old(space), pages) == {})
      ensures ok ==> Valid() && GrownBy(old(space), space, pages) && SpaceRuns.Reaches(old(space), space)
    {
      ghost var s := space;
      NothingIsGrown(s);
      SpaceRuns.NoStep(s);
      assert pages[0..] == pages;
      for k := 0 to |pages|
        invariant Valid() && Growable(space, pages[k..])
        invariant GrownBy(s, space, pages[..k]) && SpaceRuns.Reaches(s, space)
        invariant old(Settled()) || TablesMissing(s, pages[..k]) == {}
      {
        ghost var t := space;
        NextPage(s, t, pages, k);
        ok := GrowByPage(pages[k]);
        if !ok {
          return;
        }
        NextPageGrown(s, t, space, pages, k);
      }
      assert pages[..|pages|] == pages;
      Bitmap.UsedCount(frames.used, frames.Size());
      return true;
    }

    /** Gives page `pageNum` of a process a frame. None is a panic: the page exists already, or the frames do not
        suffice. If a table is missing, the kernel's heap supplies its address, and grows for it if it must. */
    method CreateProcessPage(directory: int, pageNum: nat, userMode: bool, supply: Supply)
      returns (frame: Option<nat>, ghost grown: Space)
      requires Valid() && Settled() && directory in directories && directory != kernelDirectory
      requires 256 * 1024 <= pageNum < 1024 * 1024
      requires Pointer(directories, directory, pageNum / 1024) == 0 ==> TableSupplied(space, supply)
      modifies this`tables, this`directories, this`space, frames, frames.data
      ensures frame.None? <==>
                || EntryAt(old(space), directory, pageNum / 1024, pageNum % 1024).present
                || |old(frames.used)| + 1 + Need(old(space), PagesFor(old(space), directory, pageNum / 1024, supply))
                   > frames.Size()
      ensures frame.Some? ==>
                && Valid() && Settled() && SpaceRuns.Reaches(old(space), space)
                && GrownBy(old(space), grown, PagesFor(old(space), directory, pageNum / 1024, supply))
                && frame.value < frames.Size()
                && space == ProcessPageCreated(grown, directory, pageNum / 1024, pageNum % 1024, userMode,
                                               supply.address, frame.value)
                && PageAdded(grown, space, directory, pageNum / 1024, pageNum % 1024, userMode, frame.value,
                             supply.address)
    {
      ghost var s := space;
      var i, j := pageNum / 1024, pageNum % 1024;
      var ok;
      ok, grown := EnsureTable(directory, i, supply);
      if !ok {
        return None, grown;
      }
      ghost var t := space;
      ReadyToFill(s, grown, t, directory, i, j, supply, frames.Size());
      frame := FillEntry(directories[directory].tables[i], j, userMode);
      if frame.Some? {
        ProcessPageCreatedKeeps(grown, directory, i, j, userMode, supply.address, frame.value);
        ProcessPageIsAdded(grown, directory, i, j, userMode, supply.address, frame.value);
        SpaceRuns.ReachesOn(s, grown, space);
      }
    }

    /** Sees to it that table `i` of a process exists. */
    method EnsureTable(directory: int, i: nat, supply: Supply) returns (ok: bool, ghost grown: Space)
      requires Valid() && Settled() && directory in directories && directory != kernelDirectory && 256 <= i < 1024
      requires Pointer(directories, directory, i) == 0 ==> TableSupplied(space, supply)
      modifies this`tables, this`directories, this`space, frames, frames.data
      ensures ok <==> Pointer(old(directories), directory, i) != 0
                      || |old(frames.used)| + Need(old(space), supply.pages) <= frames.Size()
      ensures ok ==> frames.Valid() && Tied() && Ringed() && Settled()
      ensures ok ==> WithTable(old(space), grown, space, directory, i, supply)
    {
      ghost var s := space;
      ok, grown := true, s;
      DirectorySize(s, directory);
      if directories[directory].tables[i] == 0 {
        ok := GrowHeap(supply.pages);
        if ok {
          grown := space;
          GrownForTable(s, grown, directory, i, supply);
          AddTable(directory, i, supply.address);
        }
      } else {
        NothingIsGrown(s);
        SpaceRuns.NoStep(s);
      }
    }

    /** Makes the kernel's table `i`: its page is created first, by the call that asked for it. None is a panic when no
        frame is left, or a store through the unset directory of a process that is being forked. */
    method CreateKernelTable(i: nat) returns (frame: Option<nat>)
      requires Valid() && i < 256 && Pointer(directories, kernelDirectory, i) == 0
      modifies this`tables, this`directories, this`space, frames, frames.data
      ensures frame.None? <==> (forall g :: 0 <= g < frames.Size() ==> g in old(frames.used)) || !old(Settled())
      ensures frame.Some? ==>
                && Valid() && CanAddKernelTable(old(space), i, frame.value)
                && space == KernelTableAdded(old(space), i, frame.value)
      decreases 1, 0
    {
      ghost var s := space;
      TablePageIsFree(s, i);
      var address := KernelTableAddress(i);
      var d := directories[kernelDirectory];
      directories := directories[kernelDirectory := d.(tables := d.tables[i := address])];
      space := Pointed(s, i, address);
      KernelTablePage(i);
      ghost var none;
      frame, none := CreateKernelPage(address / 0x1000);
      if frame.Some? {
        var linked := EnterKernelTable(i, frame.value, s);
        if !linked {
          return None;
        }
        KernelTableAddedKeeps(s, i, frame.value);
      }
    }

    /** With its page there, the table is blanked and entered into all directories. */
    method EnterKernelTable(i: nat, frame: nat, ghost s: Space) returns (linked: bool)
      requires Tied() && Ringed() && Sound(s) && i < 256 && Pointer(s.directories, s.kernel, i) == 0
      requires s.kernel in s.directories && |s.directories[s.kernel].tables| == 1024
      requires space == KernelPageCreated(Pointed(s, i, KernelTableAddress(i)), 0, 256 + i, frame)
      modifies this`tables, this`directories, this`space
      ensures linked == old(Settled())
      ensures linked ==> Tied() && space == KernelTableAdded(s, i, frame)
    {
      StepsAddTheTable(s, i, frame);
      var address, x86 := KernelTableAddress(i), frame * 0x1000 + 7;
      var d := directories[kernelDirectory];
      directories := directories[kernelDirectory := d.(x86 := d.x86[i := x86])];
      tables := tables[address := BlankTable()];
      space := space.(tables := tables, home := space.home - {address}, directories := directories);
      linked := LinkKernelTable(address, i, x86);
    }

    /** Gives page `pageNum` of the kernel a frame; a missing table is made first, with a page of its own. */
    method CreateKernelPage(pageNum: nat) returns (frame: Option<nat>, ghost tableFrame: nat)
      requires frames.Valid() && Tied() && pageNum < 1024 * 1024
      requires kernelDirectory in directories && |directories[kernelDirectory].tables| == 1024
      requires var a := Pointer(directories, kernelDirectory, pageNum / 1024);
               if a == 0 then Valid() && pageNum / 1024 < 256 else a in tables && |tables[a]| == 1024
      modifies this`tables, this`directories, this`space, frames, frames.data
      ensures frame.Some? ==> frames.Valid() && Tied() && frame.value < frames.Size()
      ensures Pointer(old(directories), kernelDirectory, pageNum / 1024) != 0 ==>
                && (frame.None? <==> EntryAt(old(space), kernelDirectory, pageNum / 1024, pageNum % 1024).present
                                     || forall g :: 0 <= g < frames.Size() ==> g in old(frames.used))
                && (frame.Some? ==>
                      && frame.value !in old(frames.used)
                      && space == KernelPageCreated(old(space), pageNum / 1024, pageNum % 1024, frame.value))
      ensures Pointer(old(directories), kernelDirectory, pageNum / 1024) == 0 ==>
                (frame.None? <==> Bitmap.AtMostOneUnused(old(frames.used), frames.Size()) || !old(Settled()))
      ensures Pointer(old(directories), kernelDirectory, pageNum / 1024) == 0 && frame.Some? ==>
                && CanAddKernelTable(old(space), pageNum / 1024, tableFrame)
                && frame.value !in old(frames.used) && frame.value != tableFrame
                && space == KernelPageCreated(KernelTableAdded(old(space), pageNum / 1024, tableFrame),
                                              pageNum / 1024, pageNum % 1024, frame.value)
      ensures frame.Some? && old(Valid()) && pageNum / 1024 < 256 && !ReservedPage(pageNum) ==>
                && Valid()
                && KernelPageAdded(old(space), space, pageNum / 1024, pageNum % 1024, frame.value, tableFrame)
      decreases if Pointer(directories, kernelDirectory, pageNum / 1024) == 0 then 1 else 0, 1
    {
      ghost var s := space;
      var i, j := pageNum / 1024, pageNum % 1024;
      tableFrame := 0;
      if directories[kernelDirectory].tables[i] == 0 {
        frame := CreateKernelTable(i);
        if frame.None? {
          return;
        }
        tableFrame := frame.value;
        NullIsNoTable(space);
        DirectorySize(space, kernelDirectory);
        KernelTableIsThere(s, i, tableFrame);
        TableIsThere(space, kernelDirectory, i);
      }
      ghost var t := space;
      frame := FillEntry(directories[kernelDirectory].tables[i], j, false);
      if frame.Some? && old(Valid()) && i < 256 && !ReservedPage(pageNum) {
        KernelPageCreatedKeeps(t, i, j, frame.value);
        KernelPageFields(s, t, i, j, tableFrame, frame.value);
      }
    }

    /** Gives up one page, unless it belongs to the kernel stack; says whether it stays. The assertion of the original
        on the bitmap never fires. */
    method CleanEntry(a: int, i: int, j: int) returns (stays: bool)
      requires frames.Valid() && Tied() && a in tables && 0 <= j < |tables[a]|
      requires tables[a][j].present ==> tables[a][j].frame < frames.Size() && tables[a][j].frame in frames.used
      modifies this`tables, this`space, frames, frames.data
      ensures frames.Valid() && Tied()
      ensures var e := old(tables[a][j]);
              && stays == (e.present && KernelStackPage(1024 * i + j))
              && space == if e.present && !stays then Unmap(old(space), a, j) else old(space)
    {
      var entry := tables[a][j];
      stays := false;
      if entry.present {
        var isUsed := frames.Get(entry.frame);
        assert isUsed;
        if !KernelStackPage(1024 * i + j) {
          frames.Clear(entry.frame);
          tables := tables[a := tables[a][j := Zeroed()]];
          space := Unmap(space, a, j);
        } else {
          stays := true;
        }
      }
    }

    /** Gives up the pages under one table of a process; says whether nothing is left under it. */
    method CleanOneTable(directory: int, i: int) returns (shouldBeDestroyed: bool)
      requires Valid() && directory in directories && directory != kernelDirectory && 256 <= i < 1024
      requires Pointer(directories, directory, i) != 0
      modifies this`tables, this`space, frames, frames.data
      ensures Valid() && space == CleanEntries(old(space), Pointer(directories, directory, i), i, 1024)
      ensures shouldBeDestroyed == !HoldsStack(old(space), directory, i)
    {
      ghost var s := space;
      DirectorySize(s, directory);
      var a := directories[directory].tables[i];
      shouldBeDestroyed := true;
      for j := 0 to 1024
        invariant Valid() && space == CleanEntries(s, a, i, j)
        invariant shouldBeDestroyed == !StackBelow(s, a, i, j)
      {
        EntryToClean(s, directory, i, j);
        var stays := CleanEntry(a, i, j);
        if stays {
          shouldBeDestroyed := false;
        }
      }
      StackBelowIsHeld(s, directory, i);
    }

    /** Frees a table and takes it out of its directory. */
    method DestroyTable(directory: int, i: int)
      requires Tied() && directory in directories
      requires 0 <= i < |directories[directory].tables| && i < |directories[directory].x86|
      modifies this`tables, this`directories, this`space
      ensures Tied() && space == DropTable(old(space), directory, i)
    {
      tables := tables - {directories[directory].tables[i]};
      directories := directories[directory := Enter(directories[directory], i, 0, 0)];
      space := DropTable(space, directory, i);
    }

    method CleanTableAt(directory: int, i: int)
      requires Valid() && directory in directories && directory != kernelDirectory && 256 <= i < 1024
      modifies this`tables, this`directories, this`space, frames, frames.data
      ensures Valid() && directory in directories && space == CleanTable(old(space), directory, i)
    {
      ghost var s := space;
      DirectorySize(s, directory);
      CleanedTableIs(s, directory, i);
      if directories[directory].tables[i] != 0 {
        var shouldBeDestroyed := CleanOneTable(directory, i);
        if shouldBeDestroyed {
          DestroyTable(directory, i);
        }
      }
    }

    /** Gives up every page of a process above 1 GB but its kernel stack, and the tables left empty. */
    method CleanNonKernelPages(directory: int)
      requires Valid() && directory in directories && directory != kernelDirectory
      modifies this`tables, this`directories, this`space, frames, frames.data
      ensures Valid() && directory in directories && space == CleanTables(old(space), directory, 1024)
      ensures EmptiedOut(old(space), space, directory) && SpaceRuns.Reaches(old(space), space)
    {
      CleanTablesKeeps(space, directory, 1024);
      CleanEmptiesOut(space, directory);
      for i := 256 to 1024
        invariant Valid() && directory in directories && space == CleanTables(old(space), directory, i)
      {
        CleanTableAt(directory, i);
      }
    }

    /** Copies one present page: a free frame is found and filled with the bytes of the page's frame. */
    method CloneEntry(a: int, j: int, entry: Entry) returns (frame: Option<nat>)
      requires frames.Valid() && Tied() && a in tables && 0 <= j < |tables[a]|
      requires entry.frame < |memory| && frames.Size() <= |memory|
      modifies this`tables, this`space, this`memory, frames, frames.data
      ensures frame.None? ==> forall g :: 0 <= g < frames.Size() ==> g in old(frames.used)
      ensures frame.Some? ==>
                && frames.Valid() && Tied() && frame.value < frames.Size() && frame.value !in old(frames.used)
                && space == CopyEntry(old(space), a, j, entry, frame.value)
                && memory == old(memory)[frame.value := old(memory)[entry.frame]]
    {
      frame := TakeFrame();
      if frame.Some? {
        memory := memory[frame.value := memory[entry.frame]];
        tables := tables[a := tables[a][j := entry.(frame := frame.value, userMode := true)]];
        space := CopyEntry(space, a, j, entry, frame.value);
      }
    }

    /** Copies the pages under table `i` of the source into the new table `a`; false is the panic when no frame is
        left. */
    method CloneTable(source: int, directory: int, i: int, a: int, ghost s0: Space, ghost m0: seq<Page>)
      returns (ok: bool)
      requires frames.Valid() && Tied() && Sound(s0) && |m0| == 0x100000 && 256 <= i < 1024
      requires source in s0.directories && source != directory && Pointer(s0.directories, source, i) != 0
      requires CopyingTable(s0, m0, space, space, memory, source, directory, i, a, 0)
      modifies this`tables, this`space, this`memory, frames, frames.data
      ensures ok <==> |old(frames.used)| + PresentUnder(s0, source, i, 0) <= frames.Size()
      ensures ok ==>
                && frames.Valid() && Tied()
                && CopyingTable(s0, m0, old(space), space, memory, source, directory, i, a, 1024)
    {
      ghost var s1 := space;
      for j := 0 to 1024
        invariant frames.Valid() && Tied() && CopyingTable(s0, m0, s1, space, memory, source, directory, i, a, j)
      {
        SourceIsThere(s0, m0, s1, space, memory, source, directory, i, a, j);
        var entry := tables[directories[source].tables[i]][j];
        if entry.present {
          ghost var s, m := space, memory;
          var frame := CloneEntry(a, j, entry);
          if frame.None? {
            Bitmap.UsedCount(s.used, frames.Size());
            TooFewForEntry(s0, m0, s1, s, m, source, directory, i, a, j, frames.Size());
            return false;
          }
          NextEntryCopied(s0, m0, s1, s, m, space, memory, source, directory, i, a, j, frame.value);
        } else {
          NextEntrySkipped(s0, m0, s1, space, memory, source, directory, i, a, j);
        }
      }
      TableFits(s0, m0, s1, space, memory, source, directory, i, a);
      Bitmap.UsedCount(frames.used, frames.Size());
      return true;
    }

    /** Copies table `i` of the source, if it has one: the kernel's heap supplies the new table, growing if it must, and
        the copy is entered once it is complete. */
    method CloneTableAt(source: int, directory: int, i: int, supply: CloneSupply, ghost s0: Space, ghost m0: seq<Page>)
      returns (ok: bool)
      requires CanClone(s0, m0, source, directory, supply) && 256 <= i < 1024 && Cloning(source, supply, s0, m0, i)
      modifies this`tables, this`directories, this`space, this`memory, frames, frames.data
      ensures ok ==> Cloning(source, supply, s0, m0, i + 1)
      ensures ok ==> old(Settled()) || SameTables(old(space), space)
      ensures !ok ==> Unclonable(source, supply, s0)
    {
      SourceDirectory(s0, m0, space, memory, source, directory, i, supply, i);
      if directories[source].tables[i] == 0 {
        NextTableSkipped(s0, m0, space, memory, source, directory, i, supply);
        return true;
      }
      ok := GrowForTable(source, directory, i, supply, s0, m0);
      if ok {
        ok := CopyTable(source, directory, i, supply, s0, m0);
      }
    }

    /** The heap grows for the copy of table `i`. */
    method GrowForTable(source: int, directory: int, i: int, supply: CloneSupply, ghost s0: Space, ghost m0: seq<Page>)
      returns (ok: bool)
      requires CanClone(s0, m0, source, directory, supply) && 256 <= i < 1024 && Cloning(source, supply, s0, m0, i)
      requires Pointer(s0.directories, source, i) != 0
      modifies this`tables, this`directories, this`space, frames, frames.data
      ensures ok ==> frames.Valid() && Tied() && Ringed()
      ensures ok ==> CopyingDirectory(s0, m0, space, memory, source, directory, i, i + 1, supply)
      ensures ok ==> space.live == s0.live && (old(Settled()) || SameTables(old(space), space))
      ensures !ok ==> Unclonable(source, supply, s0)
    {
      ghost var s := space;
      GrowthIsDue(s0, m0, s, memory, source, directory, i, supply);
      ok := GrowHeap(supply.tables[i].pages);
      if ok {
        DirectoryAfterGrowth(s0, m0, s, memory, space, source, directory, i, supply);
        if !old(Settled()) {
          NoTableMade(s, space, supply.tables[i].pages);
        }
      } else if |s.used| + Need(s, supply.tables[i].pages) > frames.Size() {
        TooFewForGrowth(s0, m0, s, memory, source, directory, i, supply, frames.Size());
      } else {
        MissingFromTheStart(s0, m0, s, memory, source, directory, i, supply);
      }
    }

    /** The copy itself, for which the address is at hand. */
    method CopyTable(source: int, directory: int, i: int, supply: CloneSupply, ghost s0: Space, ghost m0: seq<Page>)
      returns (ok: bool)
      requires frames.Valid() && Tied() && Ringed() && space.live == s0.live
      requires CanClone(s0, m0, source, directory, supply) && 256 <= i < 1024 && Pointer(s0.directories, source, i) != 0
      requires CopyingDirectory(s0, m0, space, memory, source, directory, i, i + 1, supply)
      modifies this`tables, this`directories, this`space, this`memory, frames, frames.data
      ensures ok ==> Cloning(source, supply, s0, m0, i + 1) && SameTables(old(space), space)
      ensures !ok ==> |s0.used| + FramesNeeded(s0, source, supply) > frames.Size()
    {
      ghost var s, m := space, memory;
      SourceDirectory(s0, m0, s, m, source, directory, i, supply, i + 1);
      var a := supply.tables[i].address;
      TableBegun(s0, m0, s, m, NewTable(s, a, directory, i), source, directory, i, supply);
      MakeTable(directory, i, a);
      ghost var s1 := space;
      ok := CloneTable(source, directory, i, a, s0, m0);
      if ok {
        ghost var u, n := space, memory;
        ReadyToEnter(s0, m0, s1, u, n, source, directory, i, a);
        EnterTable(directory, i, a);
        TableIsFinished(s0, m0, s, s1, u, n, space, m, source, directory, i, supply);
      } else {
        TooFewForTable(s0, m0, s, m, source, directory, i, supply, frames.Size());
      }
    }

    /** The clone is under way: the tables up to number `i` are copied. */
    ghost predicate Cloning(source: int, supply: CloneSupply, s0: Space, m0: seq<Page>, i: int)
      reads this, frames, frames.data
    {
      && frames.Valid() && Tied() && Ringed() && space.live == s0.live
      && CopyingDirectory(s0, m0, space, memory, source, supply.directory.address, i, i, supply)
    }

    /** Fewer frames are free than the clone needs, or the kernel needs a further table while a fork is under way. */
    ghost predicate Unclonable(source: int, supply: CloneSupply, s0: Space)
      reads this, frames, frames.data
    {
      || |s0.used| + FramesNeeded(s0, source, supply) > frames.Size()
      || (|s0.live| != |ring| && TablesMissing(s0, AllPages(s0, source, supply)) != {})
    }

    /** Links one kernel table of the source, if it has it. */
    method ShareTableAt(source: int, directory: int, i: int)
      requires Tied() && source in directories && directory in directories && 0 <= i < 256
      requires |directories[source].tables| == 1024 && |directories[source].x86| == 1024
      requires |directories[directory].tables| == 1024 && |directories[directory].x86| == 1024
      modifies this`directories, this`space
      ensures Tied()
      ensures space == if Pointer(old(directories), source, i) == 0 then old(space)
                       else Share(old(space), directory, source, i)
    {
      var from := directories[source];
      if from.tables[i] != 0 {
        directories := directories[directory := Enter(directories[directory], i, from.tables[i], from.x86[i])];
        space := Share(space, directory, source, i);
      }
    }

    method CloneTables(source: int, directory: int, supply: CloneSupply, ghost s0: Space, ghost m0: seq<Page>)
      returns (ok: bool)
      requires CanClone(s0, m0, source, directory, supply) && Cloning(source, supply, s0, m0, 256)
      modifies this`tables, this`directories, this`space, this`memory, frames, frames.data
      ensures ok ==> Cloning(source, supply, s0, m0, 1024)
      ensures ok ==> old(Settled()) || SameTables(old(space), space)
      ensures !ok ==> Unclonable(source, supply, s0)
    {
      for i := 256 to 1024
        invariant Cloning(source, supply, s0, m0, i)
        invariant old(Settled()) || SameTables(old(space), space)
      {
        ok := CloneTableAt(source, directory, i, supply, s0, m0);
        if !ok {
          return;
        }
      }
      ok := true;
    }

    method ShareTables(source: int, directory: int, supply: CloneSupply, ghost s0: Space, ghost m0: seq<Page>)
      requires Tied() && SharingDirectory(s0, m0, space, memory, source, directory, 0, supply)
      requires source in s0.directories && source != directory && directory != s0.kernel && directory !in s0.live
      requires Supplied(s0, [], source, supply)
      modifies this`directories, this`space
      ensures Tied() && Cloned(s0, m0, space, memory, source, directory) && Sound(space)
      ensures AllSupplied(s0, space, source, supply) && SpaceRuns.Reaches(s0, space)
      ensures SameTables(old(space), space) && space.live == s0.live
    {
      for i := 0 to 256
        invariant Tied() && SharingDirectory(s0, m0, space, memory, source, directory, i, supply)
        invariant SameTables(old(space), space)
      {
        ghost var s := space;
        SharingSizes(s0, m0, s, memory, source, directory, i, supply);
        ShareTableAt(source, directory, i);
        NextTableShared(s0, m0, s, memory, space, source, directory, i, supply);
        SharedTables(s, space, directory, source, i);
      }
      WholeHalfShared(s0, m0, space, memory, source, directory, supply);
    }

    /** Clones an address space into a new directory. The kernel's heap supplies the directory and the tables, and may
        grow for each of them. False is the panic when frames run out, or the store through the unset directory of the
        process that is being forked. */
    method ClonePageDirectory(source: int, supply: CloneSupply) returns (directory: int, ok: bool)
      requires Valid() && source in directories && Supplied(space, [], source, supply)
      modifies this`tables, this`directories, this`space, this`memory, frames, frames.data
      ensures ok <==> && |old(frames.used)| + FramesNeeded(old(space), source, supply) <= frames.Size()
                      && (old(Settled()) || TablesMissing(old(space), AllPages(old(space), source, supply)) == {})
      ensures ok ==>
                && Valid() && directory == supply.directory.address
                && Cloned(old(space), old(memory), space, memory, source, directory)
                && AllSupplied(old(space), space, source, supply) && SpaceRuns.Reaches(old(space), space)
    {
      ghost var s0, m0 := space, memory;
      directory := supply.directory.address;
      ok := BeginClone(source, supply);
      if ok {
        ghost var s1 := space;
        ok := CloneTables(source, directory, supply, s0, m0);
        if ok {
          ghost var s2 := space;
          NotLive(s0, directory);
          AllTablesCopied(s0, m0, s2, memory, source, directory, supply);
          ShareTables(source, directory, supply, s0, m0);
          CloneFits(s0, space, source, supply, frames.Size(), old(Settled()));
        }
      }
    }

    /** A blank directory on the kernel's heap. */
    method MakeDirectory(directory: int)
      requires Tied() && Ringed()
      modifies this`directories, this`space
      ensures Tied() && Ringed() && space == NewDirectory(old(space), directory)
    {
      directories := directories[directory := BlankDirectory()];
      space := NewDirectory(space, directory);
    }

    /** The heap grows for the new directory, which is blank at first. */
    method BeginClone(source: int, supply: CloneSupply) returns (ok: bool)
      requires Valid() && CanClone(space, memory, source, supply.directory.address, supply)
      modifies this`tables, this`directories, this`space, frames, frames.data
      ensures ok ==> Cloning(source, supply, old(space), memory, 256)
      ensures ok ==> old(Settled()) || SameTables(old(space), space)
      ensures !ok ==> Unclonable(source, supply, old(space))
    {
      ghost var s0 := space;
      FirstPagesFit(s0, source, supply);
      ok := GrowHeap(supply.directory.pages);
      if ok {
        ghost var b := space;
        CloneIsBegun(s0, memory, b, source, supply, old(Settled()));
        MakeDirectory(supply.directory.address);
      }
    }

    /** Forks the active process: memory for the child is allocated, the child is linked in last, and only then gets a
        clone of the address space. A store through the child's directory before that counts as a failure, whatever the
        unset field happens to hold; so a fork is sure to be safe exactly if the frames suffice and the clone does not
        make the kernel add a table. */
    method Fork(child: int, childPages: seq<nat>, supply: CloneSupply) returns (pid: Option<nat>, ghost grown: Space)
      requires Valid() && Settled() && child !in processes
      requires Supplied(space, childPages, space.live[0], supply)
      modifies this, frames, frames.data
      ensures pid.Some? <==> Forkable(old(space), childPages, old(space.live[0]), supply)
      ensures pid.Some? ==>
                && Valid() && Settled() && ring == old(ring) + [child] && activeProcess == old(activeProcess)
                && pid.value == old(currentPid) && currentPid == old(currentPid) + 1
                && (forall p :: p in old(processes) ==> old(processes)[p].pid != pid.value)
                && SameProcesses(old(processes), processes)
                && child in processes && processes[child].pid == pid.value
                && space.live == old(space.live) + [supply.directory.address]
      ensures pid.Some? ==>
                && GrownBy(old(space), grown, childPages) && SpaceRuns.Reaches(old(space), space)
                && Cloned(grown, old(memory), space.(live := old(space.live)), memory,
                          old(space.live[0]), supply.directory.address)
    {
      ghost var s, before := space, processes;
      NextPidIsNew(processes, ring, space.live, currentPid);
      var source := ActiveDirectory();
      ChildPagesFit(s, childPages, source, supply);
      var ok := LinkChild(child, childPages);
      grown := space;
      ghost var linked := processes;
      ForkFits(s, grown, childPages, source, supply, ok);
      if !ok {
        return None, grown;
      }
      ok := CloneForChild(child, source, supply);
      if !ok {
        return None, grown;
      }
      SpaceRuns.ReachesOn(s, grown, space);
      OthersStay(before, linked, processes, child, old(currentPid));
      pid := Some(processes[child].pid);
    }

    /** Allocates a process and links it in last, without an address space. */
    method LinkChild(child: int, childPages: seq<nat>) returns (ok: bool)
      requires Valid() && Settled() && child !in processes && Growable(space, childPages)
      modifies this`tables, this`directories, this`space, this`processes, this`ring, frames, frames.data
      ensures ok <==> |old(frames.used)| + Need(old(space), childPages) <= frames.Size()
      ensures ok ==>
                && Valid() && ring == old(ring) + [child] && |space.live| == |old(ring)|
                && GrownBy(old(space), space, childPages) && SpaceRuns.Reaches(old(space), space)
                && SameProcesses(old(processes), processes) && child in processes
    {
      ok := GrowHeap(childPages);
      if ok {
        Insert(child, Process(0, None, 0, 0));
      }
    }

    /** Gives the last process, which is just being forked, a clone of the active one's address space. */
    method CloneForChild(child: int, source: int, supply: CloneSupply) returns (ok: bool)
      requires Valid() && |ring| == |space.live| + 1 && ring[|space.live|] == child
      requires |space.live| > 0 && source == space.live[0] && Supplied(space, [], source, supply)
      modifies this`tables, this`directories, this`space, this`memory, this`processes, this`currentPid
      modifies frames, frames.data
      ensures ok <==> && |old(frames.used)| + FramesNeeded(old(space), source, supply) <= frames.Size()
                      && TablesMissing(old(space), AllPages(old(space), source, supply)) == {}
      ensures ok ==>
                && Valid() && Settled() && SpaceRuns.Reaches(old(space), space)
                && space.live == old(space.live) + [supply.directory.address]
                && Cloned(old(space), old(memory), space.(live := old(space.live)), memory, source,
                          supply.directory.address)
                && OnlyChild(old(processes), processes, child, old(currentPid)) && currentPid == old(currentPid) + 1
    {
      ghost var s, m := space, memory;
      SourceIsLive(s, source);
      var directory;
      directory, ok := ClonePageDirectory(source, supply);
      if ok {
        ghost var t := space;
        CloneIsLive(s, t, source, directory, memory, m);
        House(child, directory);
        assert space.(live := s.live) == t;
      }
    }

    method ActiveDirectory() returns (directory: int)
      requires Valid() && Settled()
      ensures |space.live| > 0 && directory == space.live[0] && directory in directories
      ensures directory != kernelDirectory && activeProcess in processes
    {
      assert HousedAt(processes, ring, space.live, 0);
      assert Holds(space, Sharing);
      directory := processes[activeProcess].directory.value;
    }

    /** Links a new process in before the active one. */
    method Insert(child: int, process: Process)
      requires Ringed() && Settled() && child !in processes && process.directory.None?
      modifies this`processes, this`ring
      ensures Ringed() && ring == old(ring) + [child]
      ensures SameProcesses(old(processes), processes)
      ensures child in processes && processes[child].pid == process.pid
    {
      InsertedIsLast(processes, ring, space.live, child, process);
      ghost var before := processes;
      var previous := processes[activeProcess].previous;
      processes := processes[previous := processes[previous].(next := child)];
      processes := processes[activeProcess := processes[activeProcess].(previous := child)];
      processes := processes[child := process.(previous := previous, next := activeProcess)];
      StaysNumbered(before, processes, currentPid);
      ring := ring + [child];
    }

    /** Gives the child its address space and its pid. */
    method House(child: int, directory: int)
      requires Ringed() && |ring| == |space.live| + 1 && ring[|space.live|] == child
      modifies this`processes, this`space, this`currentPid
      ensures Ringed() && Settled()
      ensures space == old(space).(live := old(space.live) + [directory])
      ensures OnlyChild(old(processes), processes, child, old(currentPid)) && currentPid == old(currentPid) + 1
    {
      LastIsHoused(processes, ring, space.live, child, directory, currentPid);
      ghost var before := processes;
      processes := processes[child := processes[child].(directory := Some(directory), pid := currentPid)];
      currentPid := currentPid + 1;
      NextIsNumbered(before, processes, child, currentPid - 1, currentPid);
      space := space.(live := space.live + [directory]);
    }

    /** Ends the active process: its pages are given up and its successor becomes active; true is the halt when it was
        the last one. */
    method Exit() returns (halted: bool)
      requires Valid() && Settled()
      modifies this`tables, this`directories, this`space, this`processes, this`ring, this`activeProcess
      modifies frames, frames.data
      ensures halted == (|old(ring)| == 1)
      ensures !halted ==>
                && Valid() && Settled() && ring == old(ring)[1..]
                && old(activeProcess) in old(processes) && processes.Keys == old(processes).Keys - {old(activeProcess)}
                && SameProcesses(processes, old(processes))
                && space == CleanTables(old(space), old(space.live[0]), 1024).(live := old(space.live)[1..])
                && EmptiedOut(old(space), space, old(space.live[0])) && SpaceRuns.Reaches(old(space), space)
    {
      var directory := ActiveDirectory();
      ghost var s := space;
      LiveWhileCleaning(s, directory);
      CleanNonKernelPages(directory);
      OneLeaves(s, space);
      StillEmptiedOut(s, space, directory);
      halted := RemoveActive();
    }

    /** Activates the successor and takes the active process out of the ring; true is the halt when it is alone. */
    method RemoveActive() returns (halted: bool)
      requires Valid() && Settled()
      modifies this`space, this`processes, this`ring, this`activeProcess
      ensures halted == (|old(ring)| == 1)
      ensures !halted ==>
                && Valid() && Settled() && ring == old(ring)[1..] && space == old(space).(live := old(space.live)[1..])
                && old(activeProcess) in old(processes) && processes.Keys == old(processes).Keys - {old(activeProcess)}
                && SameProcesses(processes, old(processes))
    {
      var exiting := activeProcess;
      NextIsOther(processes, ring);
      activeProcess := processes[activeProcess].next;
      halted := activeProcess == exiting;
      if !halted {
        Unlink(exiting);
      }
    }

    /** Takes a process whose successor is active already out of the ring. */
    method Unlink(exiting: int)
      requires Cycle(processes, ring) && |ring| > 1 && exiting == ring[0] && activeProcess == ring[1]
      requires Housed(processes, ring, space.live) && Settled() && Sound(space) && Numbered(processes, currentPid)
      modifies this`processes, this`ring, this`space
      ensures Sound(space) && Settled()
      ensures Ringed() && ring == old(ring)[1..] && processes.Keys == old(processes).Keys - {exiting}
      ensures SameProcesses(processes, old(processes))
      ensures space == old(space).(live := old(space.live)[1..])
    {
      RemovedIsRest(processes, ring, space.live);
      FewerAreLive(space);
      ghost var before := processes;
      var next, previous := processes[exiting].next, processes[exiting].previous;
      processes := processes[next := processes[next].(previous := previous)];
      processes := processes[previous := processes[previous].(next := next)];
      processes := processes - {exiting};
      StaysNumbered(before, processes, currentPid);
      ring := ring[1..];
      space := space.(live := space.live[1..]);
    }

    /** The next process's turn. */
    method Switch()
      requires Valid() && Settled()
      modifies this`activeProcess, this`ring, this`space
      ensures Valid() && Settled()
      ensures ring == Rotated(old(ring)) && space == old(space).(live := Rotated(old(space.live)))
      ensures SpaceRuns.Reaches(old(space), space)
    {
      RotatedIsCycle(processes, ring, space.live);
      TurnedAreLive(space);
      activeProcess := processes[activeProcess].next;
      ring := Rotated(ring);
      space := space.(live := Rotated(space.live));
    }

    /** Enters a new kernel table into the directory of every process, round the ring. False is the store through the
        directory of a process that has none yet. */
    method LinkKernelTable(tableAddress: int, i: nat, x86: int) returns (linked: bool)
      requires Ringed() && Tied() && i < 1024
      requires forall d :: d in space.live ==> d in directories
      requires forall d :: d in directories ==> |directories[d].tables| == 1024 && |directories[d].x86| == 1024
      modifies this`directories, this`space
      ensures linked == old(Settled())
      ensures linked ==>
                && Tied()
                && space == old(space).(directories := LinkAll(old(directories), space.live, i, tableAddress, x86))
    {
      ghost var before, live, k := directories, space.live, 0;
      NoneTwice(processes, ring);
      var current, first := activeProcess, true;
      while first || current != activeProcess
        invariant 0 <= k <= |live| && (first <==> k == 0) && space == old(space)
        invariant current == ring[if k == |ring| then 0 else k]
        invariant directories == LinkAll(before, live[..k], i, tableAddress, x86)
        decreases |ring| - k
      {
        assert LinkedAt(processes, ring, k) && HousedAt(processes, ring, live, k);
        if processes[current].directory.None? {
          return false;
        }
        LinkOneMore(before, live, k, i, tableAddress, x86);
        var d := processes[current].directory.value;
        directories := directories[d := Enter(directories[d], i, tableAddress, x86)];
        current, first, k := processes[current].next, false, k + 1;
      }
      assert live[..k] == live;
      space := space.(directories := directories);
      return true;
    }
  }
}

/** Creating pages (src/paging.c): for a process, for the kernel, and one after another for the kernel's heap. */
module PageCreation {
  import Bitmap
  import opened PageTables
  import opened SpaceSteps
  import SpaceRuns
  import opened KernelGrowth

  /** The table made for a place of a directory, and entered there. */
  function TableAdded(s: Space, d: int, i: int, a: int): Space {
    Attach(NewTable(s, a, d, i), d, i, a)
  }

  lemma TableAddedKeeps(s: Space, d: int, i: int, a: int)
    requires Sound(s) && d in s.directories && d != s.kernel && 256 <= i < 1024
    requires Pointer(s.directories, d, i) == 0 && FromHeap(s, a)
    ensures var t := TableAdded(s, d, i, a);
            && Sound(t) && SpaceRuns.Reaches(s, t) && t.kernel == s.kernel
            && Pointer(t.directories, d, i) == a && forall j :: EntryAt(t, d, i, j) == Zeroed()
  {
    var m := NewTable(s, a, d, i);
    SpaceRuns.OneStep(s, SpaceRuns.MakeTable(a, d, i));
    NewTableIsBacked(s, m, a, d, i);
    SpaceRuns.OneStep(m, SpaceRuns.EnterTable(d, i, a));
    SpaceRuns.ReachesOn(s, m, TableAdded(s, d, i, a));
    DirectorySize(m, d);
    AttachedIsBlank(m, TableAdded(s, d, i, a), d, i, a);
  }

  lemma NewTableIsBacked(s: Space, t: Space, a: int, d: int, i: int)
    requires a !in s.tables && t == NewTable(s, a, d, i) && Backed(s, a)
    ensures Backed(t, a)
  {
    BlankChangesNothing(s.tables, t.tables, a);
  }

  lemma AttachedIsBlank(s: Space, t: Space, d: int, i: int, a: int)
    requires d in s.directories && 0 <= i < |s.directories[d].tables| && i < |s.directories[d].x86|
    requires t == Attach(s, d, i, a) && a in s.tables && s.tables[a] == BlankTable()
    ensures Pointer(t.directories, d, i) == a && forall j :: EntryAt(t, d, i, j) == Zeroed()
  {}

  /** What giving page number 1024 * i + j of a process a frame comes to, field by field: the entry is present and
      writable, has the user mode asked for and the frame, and keeps its other bits; the frame is the least that was not
      in use; a missing table is entered at its address; every other page and pointer is as it was. */
  ghost predicate PageAdded(s: Space, t: Space, d: int, i: int, j: int, userMode: bool, frame: nat, address: int) {
    && EntryAt(t, d, i, j).present && EntryAt(t, d, i, j).writable && EntryAt(t, d, i, j).userMode == userMode
    && EntryAt(t, d, i, j).frame == frame && EntryAt(t, d, i, j).attributes == EntryAt(s, d, i, j).attributes
    && frame !in s.used && t.used == s.used + {frame} && (forall g :: 0 <= g < frame ==> g in s.used)
    && (forall e, k, l {:trigger EntryAt(t, e, k, l)} :: !(e == d && k == i && l == j) ==>
          EntryAt(t, e, k, l) == EntryAt(s, e, k, l))
    && (forall e, k {:trigger Pointer(t.directories, e, k)} ::
          Pointer(t.directories, e, k) == if e == d && k == i && Pointer(s.directories, d, i) == 0 then address
                                          else Pointer(s.directories, e, k))
  }

  /** A frame mapped at a page above 1 GB changes that page only. */
  lemma MappedIsAdded(s: Space, t: Space, d: int, i: int, j: int, userMode: bool, frame: nat)
    requires Sound(s) && 256 <= i < 1024 && 0 <= j < 1024 && Pointer(s.directories, d, i) != 0
    requires frame !in s.used && forall g :: 0 <= g < frame ==> g in s.used
    requires t == MapFrame(s, Pointer(s.directories, d, i), j, Filled(EntryAt(s, d, i, j), userMode, frame))
    ensures PageAdded(s, t, d, i, j, userMode, frame, 0)
  {
    TableIsThere(s, d, i);
    assert Holds(s, Homes);
    OnlyPlace(s, d, i);
    EntriesAfterMap(s, t, Pointer(s.directories, d, i), j, Filled(EntryAt(s, d, i, j), userMode, frame));
  }

  /** A blank table changes no page. */
  lemma TableAddedChangesNothing(s: Space, d: int, i: int, a: int)
    requires Sound(s) && d in s.directories && d != s.kernel && 256 <= i < 1024
    requires Pointer(s.directories, d, i) == 0 && FromHeap(s, a)
    ensures var t := TableAdded(s, d, i, a);
            && t.used == s.used
            && (forall e, k, j :: EntryAt(t, e, k, j) == EntryAt(s, e, k, j))
            && (forall e, k :: Pointer(t.directories, e, k)
                               == if e == d && k == i then a else Pointer(s.directories, e, k))
  {
    var m, t := NewTable(s, a, d, i), TableAdded(s, d, i, a);
    NullIsNoTable(s);
    DirectorySize(s, d);
    assert Holds(s, Roots);
    BlankChangesNothing(s.tables, m.tables, a);
    PointersAfterEnter(m.directories, t.directories, d, i, a, PhysicalAddress(m, a) + 7);
  }

  lemma ProcessPageIsAdded(s: Space, d: int, i: int, j: int, userMode: bool, a: int, frame: nat)
    requires Sound(s) && d in s.directories && d != s.kernel && 256 <= i < 1024 && 0 <= j < 1024
    requires Pointer(s.directories, d, i) == 0 ==> FromHeap(s, a)
    requires frame !in s.used && forall g :: 0 <= g < frame ==> g in s.used
    ensures PageAdded(s, ProcessPageCreated(s, d, i, j, userMode, a, frame), d, i, j, userMode, frame, a)
  {
    var t := ProcessPageCreated(s, d, i, j, userMode, a, frame);
    if Pointer(s.directories, d, i) != 0 {
      MappedIsAdded(s, t, d, i, j, userMode, frame);
    } else {
      TableAddedKeeps(s, d, i, a);
      TableAddedChangesNothing(s, d, i, a);
      MappedIsAdded(TableAdded(s, d, i, a), t, d, i, j, userMode, frame);
    }
  }

  /** What giving page number 1024 * i + j of the kernel a frame comes to, field by field: present, writable, for the
      kernel only; and if its table was missing, the table's own page likewise, the table at its place from 1 MB on, and
      for the processor at its frame, in the kernel's directory and in that of every process. */
  ghost predicate KernelPageAdded(s: Space, t: Space, i: int, j: int, frame: nat, tableFrame: nat) {
    && EntryAt(t, s.kernel, i, j).present && EntryAt(t, s.kernel, i, j).writable && !EntryAt(t, s.kernel, i, j).userMode
    && EntryAt(t, s.kernel, i, j).frame == frame && frame !in s.used
    && (Pointer(s.directories, s.kernel, i) != 0 ==> t.used == s.used + {frame} && t.directories == s.directories)
    && (Pointer(s.directories, s.kernel, i) == 0 ==>
          && t.used == s.used + {tableFrame, frame} && frame != tableFrame && tableFrame !in s.used
          && EntryAt(t, s.kernel, 0, 256 + i).present && EntryAt(t, s.kernel, 0, 256 + i).writable
          && !EntryAt(t, s.kernel, 0, 256 + i).userMode && EntryAt(t, s.kernel, 0, 256 + i).frame == tableFrame
          && (forall d :: d == s.kernel || d in s.live ==>
                && Pointer(t.directories, d, i) == 0x100000 + 0x1000 * i
                && Register(t.directories, d, i) == 0x1000 * tableFrame + 7))
    && (forall k, l {:trigger EntryAt(t, s.kernel, k, l)} :: k < 256 && !(k == i && l == j) ==>
          || EntryAt(t, s.kernel, k, l) == EntryAt(s, s.kernel, k, l)
          || (Pointer(s.directories, s.kernel, i) == 0 && k == 0 && l == 256 + i))
  }

  lemma KernelPageIsAdded(s: Space, i: int, j: int, frame: nat)
    requires Sound(s) && 0 <= i < 256 && 0 <= j < 1024 && Pointer(s.directories, s.kernel, i) != 0
    requires frame !in s.used
    ensures KernelPageAdded(s, KernelPageCreated(s, i, j, frame), i, j, frame, 0)
  {
    var t, a := KernelPageCreated(s, i, j, frame), Pointer(s.directories, s.kernel, i);
    TableIsThere(s, s.kernel, i);
    assert Holds(s, Layout);
    EntriesAfterMap(s, t, a, j, Filled(EntryAt(s, s.kernel, i, j), false, frame));
  }

  lemma KernelTableAndPageAreAdded(s: Space, i: int, j: int, tableFrame: nat, frame: nat)
    requires Sound(s) && CanAddKernelTable(s, i, tableFrame) && 0 <= j < 1024 && frame !in s.used && frame != tableFrame
    ensures var t := KernelPageCreated(KernelTableAdded(s, i, tableFrame), i, j, frame);
            KernelPageAdded(s, t, i, j, frame, tableFrame)
  {
    var m := KernelTableAdded(s, i, tableFrame);
    KernelTableIsThere(s, i, tableFrame);
    KernelPageIsAdded(m, i, j, frame);
    NullIsNoTable(s);
    assert KernelTables(s.directories, s.kernel, s.tables) by {
      assert Holds(s, Layout);
    }
    TablePageOnly(s, m, i, tableFrame);
    assert EntryAt(m, m.kernel, 0, 256 + i) == Entry(true, true, false, 0, tableFrame);
  }

  /** Either way, with `t` the space before the page itself is mapped. */
  lemma KernelPageFields(s: Space, t: Space, i: int, j: int, tableFrame: nat, frame: nat)
    requires Sound(s) && 0 <= i < 256 && 0 <= j < 1024 && frame !in t.used
    requires if Pointer(s.directories, s.kernel, i) != 0 then t == s
             else CanAddKernelTable(s, i, tableFrame) && t == KernelTableAdded(s, i, tableFrame)
    ensures KernelPageAdded(s, KernelPageCreated(t, i, j, frame), i, j, frame, tableFrame)
  {
    if Pointer(s.directories, s.kernel, i) != 0 {
      KernelPageIsAdded(s, i, j, frame);
    } else {
      KernelTableIsThere(s, i, tableFrame);
      KernelTableAndPageAreAdded(s, i, j, tableFrame, frame);
    }
  }

  /** What the heap promises for one table. */
  ghost predicate TableSupplied(s: Space, supply: Supply) {
    && Growable(s, supply.pages) && UnusedAddress(s, supply.address)
    && (EntryOf(s, supply.address).present || supply.address / 4096 in supply.pages)
  }

  /** The pages the heap grows by for table `i` of a process: none if the table exists. */
  function PagesFor(s: Space, d: int, i: int, supply: Supply): seq<nat> {
    if Pointer(s.directories, d, i) == 0 then supply.pages else []
  }

  /** Table `i` of a process is there, in `t`: it was, or it has been added to what the space had grown to. */
  ghost predicate WithTable(s: Space, grown: Space, t: Space, d: int, i: int, supply: Supply) {
    && Sound(grown) && GrownBy(s, grown, PagesFor(s, d, i, supply)) && SpaceRuns.Reaches(s, grown)
    && Pointer(grown.directories, d, i) == Pointer(s.directories, d, i)
    && (if Pointer(s.directories, d, i) != 0 then grown == s && t == s
        else FromHeap(grown, supply.address) && t == TableAdded(grown, d, i, supply.address))
  }

  /** The space once page number 1024 * i + j of a process has been given a frame. */
  function ProcessPageCreated(s: Space, d: int, i: int, j: int, userMode: bool, tableAddress: int, frame: nat): Space {
    var t := if Pointer(s.directories, d, i) != 0 then s else TableAdded(s, d, i, tableAddress);
    MapFrame(t, Pointer(t.directories, d, i), j, Filled(EntryAt(t, d, i, j), userMode, frame))
  }

  lemma ProcessPageCreatedKeeps(s: Space, d: int, i: int, j: int, userMode: bool, tableAddress: int, frame: nat)
    requires Sound(s) && d in s.directories && d != s.kernel && 256 <= i < 1024 && 0 <= j < 1024
    requires Pointer(s.directories, d, i) == 0 ==> FromHeap(s, tableAddress)
    requires !EntryAt(s, d, i, j).present && frame < s.managed && frame !in s.used
    ensures Sound(ProcessPageCreated(s, d, i, j, userMode, tableAddress, frame))
    ensures SpaceRuns.Reaches(s, ProcessPageCreated(s, d, i, j, userMode, tableAddress, frame))
  {
    if Pointer(s.directories, d, i) != 0 {
      MappedAboveKeeps(s, d, i, j, Filled(EntryAt(s, d, i, j), userMode, frame));
    } else {
      TableAddedKeeps(s, d, i, tableAddress);
      var t := TableAdded(s, d, i, tableAddress);
      NullIsNoTable(s);
      MappedAboveKeeps(t, d, i, j, Filled(EntryAt(t, d, i, j), userMode, frame));
      SpaceRuns.ReachesOn(s, t, ProcessPageCreated(s, d, i, j, userMode, tableAddress, frame));
    }
  }

  lemma MappedAboveKeeps(s: Space, d: int, i: int, j: int, e: Entry)
    requires Sound(s) && Pointer(s.directories, d, i) != 0 && 256 <= i && 0 <= j < 1024
    requires !EntryAt(s, d, i, j).present && e.present && e.frame < s.managed && e.frame !in s.used
    ensures Sound(MapFrame(s, Pointer(s.directories, d, i), j, e))
    ensures SpaceRuns.Reaches(s, MapFrame(s, Pointer(s.directories, d, i), j, e))
  {
    TableIsThere(s, d, i);
    assert Holds(s, Homes);
    SpaceRuns.OneStep(s, SpaceRuns.FillProcessEntry(Pointer(s.directories, d, i), j, e));
  }

  /** What the page meets under its table. */
  lemma ReadyToFill(s: Space, grown: Space, t: Space, d: int, i: int, j: int, supply: Supply, size: nat)
    requires WithTable(s, grown, t, d, i, supply) && Sound(s) && s.managed == size
    requires d in s.directories && d != s.kernel && 256 <= i < 1024 && 0 <= j < 1024
    ensures var a := Pointer(t.directories, d, i);
            && d in t.directories && |t.directories[d].tables| == 1024 && t.directories[d].tables[i] == a
            && a in t.tables && |t.tables[a]| == 1024 && t.tables[a][j] == EntryAt(t, d, i, j)
    ensures EntryAt(t, d, i, j).present == EntryAt(s, d, i, j).present
    ensures EntryAt(grown, d, i, j).present == EntryAt(s, d, i, j).present
    ensures t.used == grown.used && grown.managed == size && grown.kernel == s.kernel && d in grown.directories
    ensures (forall g :: 0 <= g < size ==> g in t.used)
            <==> |s.used| + 1 + Need(s, PagesFor(s, d, i, supply)) > size
  {
    if Pointer(s.directories, d, i) == 0 {
      NullIsNoTable(s);
      NullIsNoTable(grown);
      TableAddedKeeps(grown, d, i, supply.address);
    }
    DirectorySize(t, d);
    TableIsThere(t, d, i);
    assert Holds(grown, Shapes);
    Bitmap.UsedCount(grown.used, size);
  }

  lemma GrownForTable(s: Space, t: Space, d: int, i: int, supply: Supply)
    requires Sound(s) && Sound(t) && GrownBy(s, t, supply.pages) && TableSupplied(s, supply)
    requires d in s.directories && d != s.kernel && 256 <= i < 1024 && Pointer(s.directories, d, i) == 0
    ensures FromHeap(t, supply.address) && d in t.directories && Pointer(t.directories, d, i) == 0
    ensures 0 !in t.tables && |t.directories[d].tables| == |t.directories[d].x86| == 1024
    ensures var u := TableAdded(t, d, i, supply.address);
            && Sound(u) && SpaceRuns.Reaches(t, u) && u.kernel == t.kernel
            && Pointer(u.directories, d, i) == supply.address && forall j :: EntryAt(u, d, i, j) == Zeroed()
  {
    AddressAfterGrowth(s, t, supply.address, supply.pages);
    DirectorySize(t, d);
    NullIsNoTable(t);
    TableAddedKeeps(t, d, i, supply.address);
  }

  /** The kernel's directory with a pointer entered, before the processor's register is. */
  function Pointed(s: Space, i: int, a: int): Space
    requires s.kernel in s.directories && 0 <= i < |s.directories[s.kernel].tables|
  {
    var d := s.directories[s.kernel];
    s.(directories := s.directories[s.kernel := d.(tables := d.tables[i := a])])
  }

  /** Why the recursion of the page creation ends after one level: the page of a missing table is under a table
      that exists, and it is free. */
  lemma TablePageIsFree(s: Space, i: int)
    requires Sound(s) && 0 <= i < 256 && Pointer(s.directories, s.kernel, i) == 0
    ensures 2 <= i && s.kernel in s.directories
    ensures |s.directories[s.kernel].tables| == |s.directories[s.kernel].x86| == 1024
    ensures var p := Pointed(s, i, KernelTableAddress(i));
            && Pointer(p.directories, p.kernel, 0) == Pointer(s.directories, s.kernel, 0) != 0
            && Pointer(s.directories, s.kernel, 0) in s.tables
            && |s.tables[Pointer(s.directories, s.kernel, 0)]| == 1024
            && EntryAt(p, p.kernel, 0, 256 + i) == EntryAt(s, s.kernel, 0, 256 + i) == Zeroed()
  {
    NullIsNoTable(s);
    DirectorySize(s, s.kernel);
    assert Holds(s, Layout) && Holds(s, Reserve) && Holds(s, Forms);
    TableIsThere(s, s.kernel, 0);
    assert EntryAt(s, s.kernel, 0, 256 + i).present == (Pointer(s.directories, s.kernel, 256 + i - 256) != 0);
  }

  /** Pointer first, then the table's page, then the register and the other processes: together they add the table. */
  lemma StepsAddTheTable(s: Space, i: int, frame: nat)
    requires Sound(s) && 0 <= i < 256 && Pointer(s.directories, s.kernel, i) == 0
    ensures s.kernel in s.directories && |s.directories[s.kernel].tables| == |s.directories[s.kernel].x86| == 1024
    ensures var a, x := KernelTableAddress(i), frame * 0x1000 + 7;
            var m := KernelPageCreated(Pointed(s, i, a), 0, 256 + i, frame);
            var directories := Entered(s.directories, s.kernel, i, a, x);
            && s.kernel in m.directories && |m.directories[s.kernel].x86| == 1024
            && (forall d :: d in s.live ==> d in directories)
            && (forall d :: d in directories ==> |directories[d].tables| == 1024 && |directories[d].x86| == 1024)
            && directories
               == m.directories[s.kernel := m.directories[s.kernel].(x86 := m.directories[s.kernel].x86[i := x])]
            && KernelTableAdded(s, i, frame)
               == m.(tables := m.tables[a := BlankTable()], home := m.home - {a},
                     directories := LinkAll(directories, m.live, i, a, x))
  {
    TablePageIsFree(s, i);
    assert Holds(s, Shapes) && Holds(s, Sharing);
  }

  lemma LinkOneMore(directories: Directories, live: seq<int>, k: nat, i: nat, a: int, x: int)
    requires i < 1024 && k < |live| && forall d :: d in live ==> d in directories
    requires forall d :: d in directories ==> |directories[d].tables| == 1024 && |directories[d].x86| == 1024
    ensures var linked := LinkAll(directories, live[..k], i, a, x);
            && live[k] in linked && |linked[live[k]].tables| == |linked[live[k]].x86| == 1024
            && LinkAll(directories, live[..k + 1], i, a, x) == linked[live[k] := Enter(linked[live[k]], i, a, x)]
  {
    assert live[k] in live && forall d :: d in live[..k] ==> d in live;
    PointersAfterLink(directories, live[..k], i, a, x);
    assert live[..k + 1][..k] == live[..k] && live[..k + 1][k] == live[k];
  }

  /** What the page meets, and the frames it needs. */
  lemma PageToMap(s: Space, p: nat, size: nat)
    requires Growable(s, [p]) && Sound(s) && s.managed == size
    ensures 1280 <= p < 0x40000 && !PageOf(s, p).present
    ensures Pointer(s.directories, s.kernel, p / 1024) != 0 ==>
              var a := Pointer(s.directories, s.kernel, p / 1024); a in s.tables && |s.tables[a]| == 1024
    ensures s.kernel in s.directories && |s.directories[s.kernel].tables| == 1024
    ensures TablesMissing(s, [p]) == {} <==> Pointer(s.directories, s.kernel, p / 1024) != 0
    ensures Pointer(s.directories, s.kernel, p / 1024) != 0 ==>
              ((forall g :: 0 <= g < size ==> g in s.used) <==> |s.used| + Need(s, [p]) > size)
    ensures Pointer(s.directories, s.kernel, p / 1024) == 0 ==>
              (Bitmap.AtMostOneUnused(s.used, size) <==> |s.used| + Need(s, [p]) > size)
  {
    assert p in [p];
    NullIsNoTable(s);
    DirectorySize(s, s.kernel);
    MissingOfOne(s, p);
    assert Holds(s, Shapes);
    Bitmap.UsedCount(s.used, size);
    if Pointer(s.directories, s.kernel, p / 1024) != 0 {
      TableIsThere(s, s.kernel, p / 1024);
    }
  }

  /** The page that is next can be mapped, and what it lacks all pages together lack. */
  lemma NextPage(s: Space, t: Space, pages: seq<nat>, k: nat)
    requires k < |pages| && GrownBy(s, t, pages[..k]) && Growable(t, pages[k..]) && Growable(s, pages)
    ensures Growable(t, [pages[k]]) && |t.used| + Need(t, [pages[k]]) <= |s.used| + Need(s, pages)
    ensures TablesMissing(t, [pages[k]]) != {} ==> TablesMissing(s, pages) != {}
  {
    var p, before, now, rest := pages[k], pages[..k], pages[k..], pages[k + 1..];
    assert now == [p] + rest && pages == before + now && p in now && p in pages;
    assert forall q :: q in [p] <==> q == p;
    NeedSplits(s, t, before, now);
    NeedGrows(t, [p], rest);
    MissingOfOne(t, p);
    assert Pointer(t.directories, t.kernel, p / 1024) == 0 ==> p / 1024 in TablesMissing(s, pages);
  }

  lemma OnePageGrown(t: Space, u: Space, p: nat, tableFrame: nat, frame: nat)
    requires Sound(t) && 1280 <= p < 0x40000 && !PageOf(t, p).present && frame < t.managed && frame !in t.used
    requires if Pointer(t.directories, t.kernel, p / 1024) != 0 then
               u == KernelPageCreated(t, p / 1024, p % 1024, frame)
             else
               && CanAddKernelTable(t, p / 1024, tableFrame) && frame != tableFrame
               && u == KernelPageCreated(KernelTableAdded(t, p / 1024, tableFrame), p / 1024, p % 1024, frame)
    ensures GrownBy(t, u, [p]) && SpaceRuns.Reaches(t, u)
  {
    if Pointer(t.directories, t.kernel, p / 1024) != 0 {
      PageIsGrownBy(t, u, p, frame);
    } else {
      PageAndTableAreGrownBy(t, KernelTableAdded(t, p / 1024, tableFrame), u, p, tableFrame, frame);
    }
  }

  /** The page is there, and the rest can still follow. */
  lemma GrownOneFurther(s: Space, t: Space, u: Space, before: seq<nat>, p: nat, rest: seq<nat>)
    requires GrownBy(s, t, before) && SpaceRuns.Reaches(s, t) && Growable(t, [p] + rest)
    requires GrownBy(t, u, [p]) && SpaceRuns.Reaches(t, u)
    ensures GrownBy(s, u, before + [p]) && Growable(u, rest) && SpaceRuns.Reaches(s, u)
    ensures TablesMissing(s, before) == {} && Pointer(t.directories, t.kernel, p / 1024) != 0 ==>
              TablesMissing(s, before + [p]) == {}
  {
    assert p in [p];
    SpaceRuns.ReachesOn(s, t, u);
    GrownByBoth(s, t, u, before, [p]);
    StillGrowable(t, u, [p], rest);
    NoneMissingYet(s, t, before, p);
  }

  lemma NextPageGrown(s: Space, t: Space, u: Space, pages: seq<nat>, k: nat)
    requires k < |pages| && GrownBy(s, t, pages[..k]) && Growable(t, pages[k..])
    requires SpaceRuns.Reaches(s, t) && GrownBy(t, u, [pages[k]]) && SpaceRuns.Reaches(t, u)
    ensures GrownBy(s, u, pages[..k + 1]) && Growable(u, pages[k + 1..]) && SpaceRuns.Reaches(s, u)
    ensures TablesMissing(s, pages[..k]) == {} && Pointer(t.directories, t.kernel, pages[k] / 1024) != 0 ==>
              TablesMissing(s, pages[..k + 1]) == {}
  {
    var before, p, rest := pages[..k], pages[k], pages[k + 1..];
    var now, after := pages[k..], pages[..k + 1];
    assert now == [p] + rest && after == before + [p];
    GrownOneFurther(s, t, u, before, p, rest);
  }

  lemma NoneMissingYet(s: Space, t: Space, pages: seq<nat>, p: nat)
    requires TablesFollow(s, t, pages) && p < 0x40000
    ensures TablesMissing(s, pages) == {} && Pointer(t.directories, t.kernel, p / 1024) != 0 ==>
              TablesMissing(s, pages + [p]) == {}
  {
    assert forall q :: q in pages + [p] <==> q in pages || q == p;
    assert forall q :: q in pages && Pointer(s.directories, s.kernel, q / 1024) == 0 ==>
        q / 1024 in TablesMissing(s, pages);
  }
}

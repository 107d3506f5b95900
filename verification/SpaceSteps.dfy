/** The steps that change the address spaces, and that each keeps them sound (src/paging.c). */
module SpaceSteps {
  import opened PageTables

  /* Step: a frame is mapped. */

  function WithEntry(tables: Tables, a: int, j: int, e: Entry): Tables {
    if a in tables && 0 <= j < |tables[a]| then tables[a := tables[a][j := e]] else tables
  }

  function MapFrame(s: Space, a: int, j: int, e: Entry): Space {
    s.(used := s.used + {e.frame}, owner := s.owner[e.frame := Place(a, j)], tables := WithEntry(s.tables, a, j, e))
  }

  /** The entries of the pages kept for the kernel's tables. */
  predicate Reserved(s: Space, a: int, j: int) {
    || (a == Pointer(s.directories, s.kernel, 0) && j >= 256)
    || (a == Pointer(s.directories, s.kernel, 1) && j < 256)
  }

  predicate CanMap(s: Space, a: int, j: int, e: Entry) {
    && a in s.tables && 0 <= j < |s.tables[a]| && !EntryIn(s.tables, a, j).present
    && e.present && e.frame < s.managed && e.frame !in s.used
  }

  lemma EntriesAfterMap(s: Space, t: Space, a: int, j: int, e: Entry)
    requires a in s.tables && 0 <= j < |s.tables[a]| && t == MapFrame(s, a, j, e)
    ensures forall b, k :: EntryIn(t.tables, b, k) == if b == a && k == j then e else EntryIn(s.tables, b, k)
  {}

  /** What the kernel has mapped below 1 GB stays mapped where it was. */
  ghost predicate KernelKept(s: Space, t: Space) {
    && t.kernel == s.kernel
    && (forall i, j :: i < 256 && EntryAt(s, s.kernel, i, j).present ==>
          EntryAt(t, t.kernel, i, j) == EntryAt(s, s.kernel, i, j))
  }

  lemma TranslationKept(s: Space, t: Space)
    requires Translated(s) && KernelKept(s, t)
    requires forall d, i :: d in t.directories && 0 <= i < 1024 ==>
               || (Pointer(t.directories, d, i) == 0 && Register(t.directories, d, i) == 0)
               || (var a := Pointer(t.directories, d, i);
                   Backed(t, a) && Register(t.directories, d, i) == PhysicalAddress(t, a) + 7)
               || (&& d in s.directories
                   && Pointer(t.directories, d, i) == Pointer(s.directories, d, i)
                   && Register(t.directories, d, i) == Register(s.directories, d, i))
    ensures Translated(t)
  {
    forall d, i | d in t.directories && 0 <= i < 1024 && Pointer(t.directories, d, i) != 0
      ensures var a := Pointer(t.directories, d, i);
              Backed(t, a) && Register(t.directories, d, i) == PhysicalAddress(t, a) + 7
    {
      assert d in s.directories && Pointer(t.directories, d, i) == Pointer(s.directories, d, i) ==>
          Backed(s, Pointer(s.directories, d, i)) || Backed(t, Pointer(t.directories, d, i));
    }
  }

  lemma ReservedPagesKept(s: Space, t: Space)
    requires ReservedPages(s) && t.kernel == s.kernel
    requires forall i :: Pointer(t.directories, t.kernel, i) == Pointer(s.directories, s.kernel, i)
    requires forall i, j :: i < 256 && Reserved(s, Pointer(s.directories, s.kernel, i), j) ==>
               EntryAt(t, t.kernel, i, j).present == EntryAt(s, s.kernel, i, j).present
    ensures ReservedPages(t)
  {}

  lemma MappedIsShaped(s: Space, t: Space, a: int, j: int, e: Entry)
    requires Shaped(s) && CanMap(s, a, j, e) && t == MapFrame(s, a, j, e)
    ensures Shaped(t)
  {}

  lemma MappedIsOwned(s: Space, t: Space, a: int, j: int, e: Entry)
    requires CanMap(s, a, j, e) && t == MapFrame(s, a, j, e) && s.managed <= 0x100000
    requires Owned(s.tables, s.managed, s.used, s.owner) && ProcessFrames(s.tables, s.managed, s.home, s.kernel)
    requires Entries(s.tables)
    ensures Owned(t.tables, t.managed, t.used, t.owner) && ProcessFrames(t.tables, t.managed, t.home, t.kernel)
    ensures Entries(t.tables)
  {
    EntriesAfterMap(s, t, a, j, e);
  }

  lemma MapFrameKeepsKernel(s: Space, t: Space, a: int, j: int, e: Entry)
    requires CanMap(s, a, j, e) && t == MapFrame(s, a, j, e) && s.kernel in s.directories && !Reserved(s, a, j)
    requires KernelTables(s.directories, s.kernel, s.tables) && ReservedPages(s) && Translated(s)
    ensures KernelTables(t.directories, t.kernel, t.tables) && ReservedPages(t) && Translated(t)
  {
    EntriesAfterMap(s, t, a, j, e);
    TranslationKept(s, t);
    ReservedPagesKept(s, t);
  }

  lemma MapFrameKeeps(s: Space, a: int, j: int, e: Entry)
    requires Sound(s) && CanMap(s, a, j, e) && !Reserved(s, a, j)
    ensures Sound(MapFrame(s, a, j, e))
  {
    Unfold(s);
    var t := MapFrame(s, a, j, e);
    MappedIsShaped(s, t, a, j, e);
    MappedIsOwned(s, t, a, j, e);
    MapFrameKeepsKernel(s, t, a, j, e);
    Fold(t);
  }

  /* Step: a blank table is made on the kernel's heap, for place `i` of directory `d`. */

  /** An address the kernel's heap may hand out for a new table or directory. */
  predicate FromHeap(s: Space, a: int) {
    Backed(s, a) && a >= 0x500000 && a !in s.tables && a !in s.directories
  }

  function NewTable(s: Space, a: int, d: int, i: int): Space {
    s.(tables := s.tables[a := BlankTable()], home := s.home[a := Place(d, i)])
  }

  /** A blank table where there was none changes no entry. */
  lemma BlankChangesNothing(tables: Tables, after: Tables, a: int)
    requires a !in tables && after == tables[a := BlankTable()]
    ensures forall b, k :: EntryIn(after, b, k) == EntryIn(tables, b, k)
  {}

  lemma NewTableIsOwned(s: Space, t: Space, a: int, d: int, i: int)
    requires t == NewTable(s, a, d, i) && a !in s.tables
    requires Owned(s.tables, s.managed, s.used, s.owner) && ProcessFrames(s.tables, s.managed, s.home, s.kernel)
    requires Entries(s.tables)
    ensures Owned(t.tables, s.managed, s.used, s.owner) && ProcessFrames(t.tables, s.managed, t.home, s.kernel)
    ensures Entries(t.tables)
  {
    BlankChangesNothing(s.tables, t.tables, a);
    assert forall k :: EntryIn(s.tables, a, k) == Zeroed();
  }

  lemma NewTableIsPrivate(s: Space, t: Space, a: int, d: int, i: int)
    requires t == NewTable(s, a, d, i) && a !in s.tables
    requires Rooted(s.directories, s.tables) && Private(s.directories, s.home)
    ensures Rooted(s.directories, t.tables) && Private(s.directories, t.home)
  {}

  lemma NewTableKeepsKernel(s: Space, t: Space, a: int, d: int, i: int)
    requires t == NewTable(s, a, d, i) && a !in s.tables && a >= 0x500000 && s.kernel in s.directories
    requires KernelTables(s.directories, s.kernel, s.tables) && ReservedPages(s) && Translated(s)
    ensures KernelTables(s.directories, s.kernel, t.tables) && ReservedPages(t) && Translated(t)
  {
    BlankChangesNothing(s.tables, t.tables, a);
    TranslationKept(s, t);
    ReservedPagesKept(s, t);
  }

  lemma NewTableIsShaped(s: Space, t: Space, a: int, d: int, i: int)
    requires Shaped(s) && a > 0 && t == NewTable(s, a, d, i)
    ensures Shaped(t)
  {}

  lemma NewTableKeeps(s: Space, a: int, d: int, i: int)
    requires Sound(s) && FromHeap(s, a)
    ensures Sound(NewTable(s, a, d, i))
  {
    Unfold(s);
    var t := NewTable(s, a, d, i);
    NewTableIsOwned(s, t, a, d, i);
    NewTableIsPrivate(s, t, a, d, i);
    NewTableKeepsKernel(s, t, a, d, i);
    NewTableIsShaped(s, t, a, d, i);
    Fold(t);
  }

  /* Step: a table is entered into the place of the directory it was made for. */

  function Enter(directory: Directory, i: int, a: int, x: int): Directory
    requires 0 <= i < |directory.tables| && i < |directory.x86|
  {
    Directory(directory.tables[i := a], directory.x86[i := x])
  }

  function Entered(directories: Directories, d: int, i: int, a: int, x: int): Directories {
    if d in directories && 0 <= i < |directories[d].tables| && i < |directories[d].x86|
    then directories[d := Enter(directories[d], i, a, x)] else directories
  }

  lemma PointersAfterEnter(directories: Directories, after: Directories, d: int, i: int, a: int, x: int)
    requires d in directories && 0 <= i < |directories[d].tables| && i < |directories[d].x86|
    requires after == Entered(directories, d, i, a, x)
    ensures forall e, k :: Pointer(after, e, k) == if e == d && k == i then a else Pointer(directories, e, k)
    ensures forall e, k :: Register(after, e, k) == if e == d && k == i then x else Register(directories, e, k)
  {}

  function Attach(s: Space, d: int, i: int, a: int): Space {
    s.(directories := Entered(s.directories, d, i, a, PhysicalAddress(s, a) + 7))
  }

  lemma AttachedIsShared(s: Space, t: Space, d: int, i: int, a: int)
    requires s.kernel in s.directories && d in s.directories && d != s.kernel
    requires 256 <= i < |s.directories[d].tables| && i < |s.directories[d].x86| && t == Attach(s, d, i, a)
    requires SharedByAll(s.directories, s.kernel, s.live)
    ensures SharedByAll(t.directories, t.kernel, t.live)
  {
    PointersAfterEnter(s.directories, t.directories, d, i, a, PhysicalAddress(s, a) + 7);
  }

  lemma AttachedIsPrivate(s: Space, t: Space, d: int, i: int, a: int)
    requires d in s.directories && 256 <= i < |s.directories[d].tables| && i < |s.directories[d].x86|
    requires t == Attach(s, d, i, a) && a in s.tables && a in s.home && s.home[a] == Place(d, i)
    requires Rooted(s.directories, s.tables) && Private(s.directories, s.home)
    ensures Rooted(t.directories, s.tables) && Private(t.directories, s.home)
  {
    PointersAfterEnter(s.directories, t.directories, d, i, a, PhysicalAddress(s, a) + 7);
  }

  lemma AttachKeepsKernel(s: Space, t: Space, d: int, i: int, a: int)
    requires s.kernel in s.directories && d in s.directories && d != s.kernel
    requires 256 <= i < |s.directories[d].tables| && i < |s.directories[d].x86|
    requires t == Attach(s, d, i, a) && Backed(s, a)
    requires KernelTables(s.directories, s.kernel, s.tables) && ReservedPages(s) && Translated(s)
    ensures KernelTables(t.directories, s.kernel, s.tables) && ReservedPages(t) && Translated(t)
  {
    PointersAfterEnter(s.directories, t.directories, d, i, a, PhysicalAddress(s, a) + 7);
    ReservedPagesKept(s, t);
    assert EntryOf(t, a) == EntryOf(s, a);
    TranslationKept(s, t);
  }

  lemma AttachedIsShaped(s: Space, t: Space, d: int, i: int, a: int)
    requires Shaped(s) && d in s.directories && 0 <= i < 1024 && t == Attach(s, d, i, a)
    ensures Shaped(t)
  {}

  lemma AttachKeeps(s: Space, d: int, i: int, a: int)
    requires Sound(s) && d in s.directories && d != s.kernel && 256 <= i < 1024
    requires a in s.tables && Backed(s, a) && a in s.home && s.home[a] == Place(d, i)
    ensures Sound(Attach(s, d, i, a))
  {
    Unfold(s);
    var t := Attach(s, d, i, a);
    assert Shaped(t) by {
      AttachedIsShaped(s, t, d, i, a);
    }
    assert Rooted(t.directories, t.tables) && Private(t.directories, t.home) by {
      AttachedIsPrivate(s, t, d, i, a);
    }
    assert KernelTables(t.directories, t.kernel, t.tables) && ReservedPages(t) && Translated(t) by {
      AttachKeepsKernel(s, t, d, i, a);
    }
    assert SharedByAll(t.directories, t.kernel, t.live) by {
      AttachedIsShared(s, t, d, i, a);
    }
    Fold(t);
  }

  /* Step: a blank directory. */

  function NewDirectory(s: Space, d: int): Space {
    s.(directories := s.directories[d := BlankDirectory()])
  }

  lemma PointersAfterBlank(directories: Directories, after: Directories, d: int)
    requires d !in directories && after == directories[d := BlankDirectory()]
    ensures forall e, k :: Pointer(after, e, k) == Pointer(directories, e, k)
    ensures forall e, k :: Register(after, e, k) == Register(directories, e, k)
  {}

  lemma NewDirectoryIsPrivate(s: Space, t: Space, d: int)
    requires t == NewDirectory(s, d) && d !in s.directories
    requires Rooted(s.directories, s.tables) && Private(s.directories, s.home)
    requires SharedByAll(s.directories, s.kernel, s.live)
    ensures Rooted(t.directories, t.tables) && Private(t.directories, t.home)
    ensures SharedByAll(t.directories, t.kernel, t.live)
  {
    PointersAfterBlank(s.directories, t.directories, d);
  }

  lemma NewDirectoryKeepsKernel(s: Space, t: Space, d: int)
    requires t == NewDirectory(s, d) && d !in s.directories && s.kernel in s.directories
    requires KernelTables(s.directories, s.kernel, s.tables) && ReservedPages(s) && Translated(s)
    ensures KernelTables(t.directories, t.kernel, t.tables) && ReservedPages(t) && Translated(t)
  {
    PointersAfterBlank(s.directories, t.directories, d);
    TranslationKept(s, t);
    ReservedPagesKept(s, t);
  }

  lemma NewDirectoryIsShaped(s: Space, t: Space, d: int)
    requires t == NewDirectory(s, d) && Shaped(s)
    ensures Shaped(t)
  {}

  lemma NewDirectoryKeeps(s: Space, d: int)
    requires Sound(s) && d !in s.directories
    ensures Sound(NewDirectory(s, d))
  {
    Unfold(s);
    var t := NewDirectory(s, d);
    NewDirectoryIsPrivate(s, t, d);
    NewDirectoryKeepsKernel(s, t, d);
    NewDirectoryIsShaped(s, t, d);
    Fold(t);
  }

  /* Step: a page of a process is given up. */

  function Unmap(s: Space, a: int, j: int): Space {
    s.(used := s.used - {EntryIn(s.tables, a, j).frame}, tables := WithEntry(s.tables, a, j, Zeroed()))
  }

  lemma EntriesAfterUnmap(s: Space, t: Space, a: int, j: int)
    requires a in s.tables && 0 <= j < |s.tables[a]| && t == Unmap(s, a, j)
    ensures forall b, k :: EntryIn(t.tables, b, k) == if b == a && k == j then Zeroed() else EntryIn(s.tables, b, k)
  {}

  lemma UnmappedIsOwned(s: Space, t: Space, a: int, j: int)
    requires a in s.tables && 0 <= j < |s.tables[a]| && t == Unmap(s, a, j)
    requires EntryIn(s.tables, a, j).present && EntryIn(s.tables, a, j).frame < s.managed
    requires Owned(s.tables, s.managed, s.used, s.owner) && ProcessFrames(s.tables, s.managed, s.home, s.kernel)
    requires Entries(s.tables)
    ensures Owned(t.tables, t.managed, t.used, t.owner) && ProcessFrames(t.tables, t.managed, t.home, t.kernel)
    ensures Entries(t.tables)
  {
    EntriesAfterUnmap(s, t, a, j);
  }

  lemma UnmapKeepsKernel(s: Space, t: Space, a: int, j: int)
    requires a in s.tables && 0 <= j < |s.tables[a]| && t == Unmap(s, a, j) && s.kernel in s.directories
    requires forall i :: i < 256 ==> Pointer(s.directories, s.kernel, i) != a
    requires KernelTables(s.directories, s.kernel, s.tables) && ReservedPages(s) && Translated(s)
    ensures KernelTables(t.directories, t.kernel, t.tables) && ReservedPages(t) && Translated(t)
  {
    EntriesAfterUnmap(s, t, a, j);
    TranslationKept(s, t);
    ReservedPagesKept(s, t);
  }

  lemma UnmappedIsShaped(s: Space, t: Space, a: int, j: int)
    requires Shaped(s) && a in s.tables && 0 <= j < 1024 && t == Unmap(s, a, j)
    ensures Shaped(t)
  {}

  lemma UnmapKeeps(s: Space, a: int, j: int)
    requires Sound(s) && EntryIn(s.tables, a, j).present && a in s.home && s.home[a].at != s.kernel
    ensures EntryIn(s.tables, a, j).frame in s.used
    ensures Sound(Unmap(s, a, j))
  {
    Unfold(s);
    var t := Unmap(s, a, j);
    UnmappedIsOwned(s, t, a, j);
    UnmapKeepsKernel(s, t, a, j);
    UnmappedIsShaped(s, t, a, j);
    Fold(t);
  }

  /* Step: a table with no present page is freed. */

  function DropTable(s: Space, d: int, i: int): Space {
    s.(tables := s.tables - {Pointer(s.directories, d, i)}, directories := Entered(s.directories, d, i, 0, 0))
  }

  lemma EntriesAfterDrop(tables: Tables, after: Tables, a: int)
    requires after == tables - {a}
    ensures forall b, k :: EntryIn(after, b, k) == if b == a then Zeroed() else EntryIn(tables, b, k)
  {}

  lemma DroppedIsOwned(s: Space, t: Space, d: int, i: int)
    requires d in s.directories && 256 <= i < |s.directories[d].tables| && i < |s.directories[d].x86|
    requires t == DropTable(s, d, i) && forall j :: !EntryAt(s, d, i, j).present
    requires Owned(s.tables, s.managed, s.used, s.owner) && ProcessFrames(s.tables, s.managed, s.home, s.kernel)
    requires Entries(s.tables)
    ensures Owned(t.tables, t.managed, t.used, t.owner) && ProcessFrames(t.tables, t.managed, t.home, t.kernel)
    ensures Entries(t.tables)
  {
    EntriesAfterDrop(s.tables, t.tables, Pointer(s.directories, d, i));
    assert forall j :: EntryAt(s, d, i, j) == EntryIn(s.tables, Pointer(s.directories, d, i), j);
  }

  lemma DroppedIsPrivate(s: Space, t: Space, d: int, i: int)
    requires d in s.directories && 256 <= i < |s.directories[d].tables| && i < |s.directories[d].x86|
    requires Pointer(s.directories, d, i) != 0 && t == DropTable(s, d, i)
    requires Rooted(s.directories, s.tables) && Private(s.directories, s.home)
    ensures Rooted(t.directories, t.tables) && Private(t.directories, t.home)
  {
    PointersAfterEnter(s.directories, t.directories, d, i, 0, 0);
  }

  lemma DroppedIsShared(s: Space, t: Space, d: int, i: int)
    requires s.kernel in s.directories && d in s.directories && d != s.kernel
    requires 256 <= i < |s.directories[d].tables| && i < |s.directories[d].x86| && t == DropTable(s, d, i)
    requires SharedByAll(s.directories, s.kernel, s.live)
    ensures SharedByAll(t.directories, t.kernel, t.live)
  {
    PointersAfterEnter(s.directories, t.directories, d, i, 0, 0);
  }

  lemma DropTableKeepsKernel(s: Space, t: Space, d: int, i: int)
    requires s.kernel in s.directories && d in s.directories && d != s.kernel
    requires 256 <= i < |s.directories[d].tables| && i < |s.directories[d].x86| && t == DropTable(s, d, i)
    requires forall k :: k < 256 ==> Pointer(s.directories, s.kernel, k) != Pointer(s.directories, d, i)
    requires KernelTables(s.directories, s.kernel, s.tables) && ReservedPages(s) && Translated(s)
    ensures KernelTables(t.directories, t.kernel, t.tables) && ReservedPages(t) && Translated(t)
  {
    PointersAfterEnter(s.directories, t.directories, d, i, 0, 0);
    EntriesAfterDrop(s.tables, t.tables, Pointer(s.directories, d, i));
    TranslationKept(s, t);
    ReservedPagesKept(s, t);
  }

  lemma DroppedIsShaped(s: Space, t: Space, d: int, i: int)
    requires Shaped(s) && d in s.directories && 0 <= i < 1024 && t == DropTable(s, d, i)
    ensures Shaped(t)
  {}

  lemma DropTableKeeps(s: Space, d: int, i: int)
    requires Sound(s) && d in s.directories && d != s.kernel && 256 <= i < 1024 && Pointer(s.directories, d, i) != 0
    requires forall j :: !EntryAt(s, d, i, j).present
    ensures Sound(DropTable(s, d, i))
  {
    Unfold(s);
    var t := DropTable(s, d, i);
    assert Shaped(t) by {
      DroppedIsShaped(s, t, d, i);
    }
    assert Rooted(t.directories, t.tables) && Private(t.directories, t.home) by {
      DroppedIsPrivate(s, t, d, i);
    }
    assert Owned(t.tables, t.managed, t.used, t.owner) && ProcessFrames(t.tables, t.managed, t.home, t.kernel)
           && Entries(t.tables) by {
      DroppedIsOwned(s, t, d, i);
    }
    assert KernelTables(t.directories, t.kernel, t.tables) && ReservedPages(t) && Translated(t) by {
      DropTableKeepsKernel(s, t, d, i);
    }
    assert SharedByAll(t.directories, t.kernel, t.live) by {
      DroppedIsShared(s, t, d, i);
    }
    Fold(t);
  }

  /* Step: a table below 1 GB is added to the kernel and to every process. */

  /** Enters `a` into place `i` of each of the directories named. */
  function LinkAll(directories: Directories, ds: seq<int>, i: int, a: int, x: int): Directories {
    if ds == [] then directories
    else Entered(LinkAll(directories, ds[..|ds| - 1], i, a, x), ds[|ds| - 1], i, a, x)
  }

  lemma {:induction false} PointersAfterLink(directories: Directories, ds: seq<int>, i: int, a: int, x: int)
    requires 0 <= i < 1024
    requires forall d :: d in directories ==> |directories[d].tables| == 1024 && |directories[d].x86| == 1024
    requires forall d :: d in ds ==> d in directories
    ensures var after := LinkAll(directories, ds, i, a, x);
            && after.Keys == directories.Keys
            && (forall d :: d in after ==> |after[d].tables| == 1024 && |after[d].x86| == 1024)
            && (forall e, k :: Pointer(after, e, k) == if e in ds && k == i then a else Pointer(directories, e, k))
            && (forall e, k :: Register(after, e, k) == if e in ds && k == i then x else Register(directories, e, k))
  {
    if ds != [] {
      var rest, d := ds[..|ds| - 1], ds[|ds| - 1];
      assert ds == rest + [d];
      assert forall e :: e in ds <==> e in rest || e == d;
      PointersAfterLink(directories, rest, i, a, x);
      var linked := LinkAll(directories, rest, i, a, x);
      PointersAfterEnter(linked, Entered(linked, d, i, a, x), d, i, a, x);
    }
  }

  function KernelEntry(frame: nat): Entry {
    Entry(true, true, false, 0, frame)
  }

  /** The new table's own page is number 256 + i, under the kernel's table 0. */
  function KernelTableAdded(s: Space, i: int, frame: nat): Space {
    var a, x := KernelTableAddress(i), frame * 0x1000 + 7;
    var m := MapFrame(s, Pointer(s.directories, s.kernel, 0), 256 + i, KernelEntry(frame));
    m.(tables := m.tables[a := BlankTable()],
       directories := LinkAll(Entered(s.directories, s.kernel, i, a, x), s.live, i, a, x),
       home := m.home - {a})
  }

  /** The pointers and entries after the step, one by one. */
  ghost predicate KernelTableIsIn(s: Space, t: Space, i: int, frame: nat) {
    && s.kernel in s.directories && 0 <= i < 256
    && t.kernel == s.kernel && t.live == s.live && t.managed == s.managed
    && t.used == s.used + {frame} && t.owner == s.owner[frame := Place(Pointer(s.directories, s.kernel, 0), 256 + i)]
    && t.home == s.home - {KernelTableAddress(i)}
    && t.tables.Keys == s.tables.Keys + {KernelTableAddress(i)} && t.directories.Keys == s.directories.Keys
    && (forall e, k :: Pointer(t.directories, e, k)
                       == if (e == s.kernel || e in s.live) && k == i then KernelTableAddress(i)
                          else Pointer(s.directories, e, k))
    && (forall e, k :: Register(t.directories, e, k)
                       == if (e == s.kernel || e in s.live) && k == i then frame * 0x1000 + 7
                          else Register(s.directories, e, k))
    && (forall b, k :: EntryIn(t.tables, b, k)
                       == if b == Pointer(s.directories, s.kernel, 0) && k == 256 + i then KernelEntry(frame)
                          else EntryIn(s.tables, b, k))
  }

  lemma KernelTableAddedPointwise(s: Space, i: int, frame: nat)
    requires Shaped(s) && 0 <= i < 256 && Pointer(s.directories, s.kernel, 0) in s.tables
    requires KernelTableAddress(i) !in s.tables && forall d :: d in s.live ==> d in s.directories
    ensures KernelTableIsIn(s, KernelTableAdded(s, i, frame), i, frame)
    ensures Shaped(s) && frame < s.managed ==> Shaped(KernelTableAdded(s, i, frame))
  {
    var t := KernelTableAdded(s, i, frame);
    var a, x := KernelTableAddress(i), frame * 0x1000 + 7;
    var m := MapFrame(s, Pointer(s.directories, s.kernel, 0), 256 + i, KernelEntry(frame));
    EntriesAfterMap(s, m, Pointer(s.directories, s.kernel, 0), 256 + i, KernelEntry(frame));
    BlankChangesNothing(m.tables, t.tables, a);
    var entered := Entered(s.directories, s.kernel, i, a, x);
    PointersAfterEnter(s.directories, entered, s.kernel, i, a, x);
    PointersAfterLink(entered, s.live, i, a, x);
  }

  ghost predicate CanAddKernelTable(s: Space, i: int, frame: nat) {
    2 <= i < 256 && Pointer(s.directories, s.kernel, i) == 0 && frame < s.managed && frame !in s.used
  }

  lemma KernelTableIsOwned(s: Space, t: Space, i: int, frame: nat)
    requires KernelTableIsIn(s, t, i, frame) && frame < s.managed <= 0x100000 && frame !in s.used
    requires Owned(s.tables, s.managed, s.used, s.owner) && ProcessFrames(s.tables, s.managed, s.home, s.kernel)
    requires Entries(s.tables)
    ensures Owned(t.tables, t.managed, t.used, t.owner) && ProcessFrames(t.tables, t.managed, t.home, t.kernel)
    ensures Entries(t.tables)
  {}

  lemma KernelTableIsPrivate(s: Space, t: Space, i: int, frame: nat)
    requires KernelTableIsIn(s, t, i, frame) && KernelTableAddress(i) !in s.tables
    requires Rooted(s.directories, s.tables) && Private(s.directories, s.home)
    ensures Rooted(t.directories, t.tables) && Private(t.directories, t.home)
  {}

  lemma KernelTableIsShared(s: Space, t: Space, i: int, frame: nat)
    requires KernelTableIsIn(s, t, i, frame)
    requires SharedByAll(s.directories, s.kernel, s.live)
    ensures SharedByAll(t.directories, t.kernel, t.live)
  {}

  lemma KernelTableIsReserved(s: Space, t: Space, i: int, frame: nat)
    requires KernelTableIsIn(s, t, i, frame) && 2 <= i && Pointer(s.directories, s.kernel, i) == 0
    requires KernelTables(s.directories, s.kernel, s.tables) && ReservedPages(s)
    ensures KernelTables(t.directories, t.kernel, t.tables) && ReservedPages(t)
  {
    assert Pointer(s.directories, s.kernel, 0) == KernelTableAddress(0);
    assert Pointer(s.directories, s.kernel, 1) == KernelTableAddress(1);
    assert forall j :: j != 256 + i ==> EntryAt(t, t.kernel, 0, j) == EntryAt(s, s.kernel, 0, j);
    assert forall j :: EntryAt(t, t.kernel, 1, j) == EntryAt(s, s.kernel, 1, j);
  }

  /** Page number 256 + i holds the kernel's table `i`. */
  lemma KernelTablePage(i: int)
    requires 0 <= i < 256
    ensures var a := KernelTableAddress(i);
            a / 4096 / 1024 == 0 && a / 4096 % 1024 == 256 + i && a % 4096 == 0 && 0 < a < 0x4000_0000
  {
    assert KernelTableAddress(i) / 4096 == 256 + i;
  }

  lemma KernelTableIsBacked(s: Space, t: Space, i: int, frame: nat)
    requires KernelTableIsIn(s, t, i, frame) && 2 <= i && 0 !in s.tables && Pointer(s.directories, s.kernel, 0) != 0
    ensures var a := KernelTableAddress(i);
            Backed(t, a) && PhysicalAddress(t, a) == frame * 0x1000
  {
    KernelTablePage(i);
    assert EntryOf(t, KernelTableAddress(i)) == EntryAt(t, t.kernel, 0, 256 + i) == KernelEntry(frame);
  }

  lemma KernelTableIsTranslated(s: Space, t: Space, i: int, frame: nat)
    requires KernelTableIsIn(s, t, i, frame) && 2 <= i && Pointer(s.directories, s.kernel, i) == 0
    requires !EntryAt(s, s.kernel, 0, 256 + i).present && Translated(s) && 0 !in s.tables
    requires Pointer(s.directories, s.kernel, 0) != 0
    ensures Translated(t)
  {
    assert KernelKept(s, t);
    var a := KernelTableAddress(i);
    assert Backed(t, a) && frame * 0x1000 + 7 == PhysicalAddress(t, a) + 7 by {
      KernelTableIsBacked(s, t, i, frame);
    }
    forall d, k | d in t.directories && 0 <= k < 1024
      ensures || (&& Pointer(t.directories, d, k) == Pointer(s.directories, d, k)
                  && Register(t.directories, d, k) == Register(s.directories, d, k))
              || (Pointer(t.directories, d, k) == a && Register(t.directories, d, k) == frame * 0x1000 + 7)
    {
    }
    TranslationKept(s, t);
  }

  lemma KernelTableAddedKeeps(s: Space, i: int, frame: nat)
    requires Sound(s) && CanAddKernelTable(s, i, frame)
    ensures Pointer(s.directories, s.kernel, 0) in s.tables
    ensures Sound(KernelTableAdded(s, i, frame))
  {
    Unfold(s);
    assert Pointer(s.directories, s.kernel, 0) in s.tables && KernelTableAddress(i) !in s.tables;
    var t := KernelTableAdded(s, i, frame);
    assert KernelTableIsIn(s, t, i, frame) && Shaped(t) by {
      KernelTableAddedPointwise(s, i, frame);
    }
    assert Owned(t.tables, t.managed, t.used, t.owner) && ProcessFrames(t.tables, t.managed, t.home, t.kernel)
           && Entries(t.tables) by {
      KernelTableIsOwned(s, t, i, frame);
    }
    assert Rooted(t.directories, t.tables) && Private(t.directories, t.home) by {
      KernelTableIsPrivate(s, t, i, frame);
    }
    assert SharedByAll(t.directories, t.kernel, t.live) by {
      KernelTableIsShared(s, t, i, frame);
    }
    assert KernelTables(t.directories, t.kernel, t.tables) && ReservedPages(t) by {
      KernelTableIsReserved(s, t, i, frame);
    }
    assert Translated(t) by {
      assert EntryAt(s, s.kernel, 0, 256 + i).present == (Pointer(s.directories, s.kernel, 256 + i - 256) != 0);
      KernelTableIsTranslated(s, t, i, frame);
    }
    Fold(t);
  }

  /* Step: a directory that is not live yet takes over one table below 1 GB from another. */

  function Share(s: Space, d: int, e: int, i: int): Space {
    s.(directories := Entered(s.directories, d, i, Pointer(s.directories, e, i), Register(s.directories, e, i)))
  }

  lemma ShareKeepsPossession(s: Space, t: Space, d: int, e: int, i: int)
    requires Shaped(s) && d in s.directories && 0 <= i < 256 && t == Share(s, d, e, i)
    requires Rooted(s.directories, s.tables) && Private(s.directories, s.home)
    requires SharedByAll(s.directories, s.kernel, s.live) && d !in s.live && d != s.kernel
    ensures Shaped(t) && Rooted(t.directories, t.tables) && Private(t.directories, t.home)
    ensures SharedByAll(t.directories, t.kernel, t.live)
  {
    PointersAfterEnter(s.directories, t.directories, d, i, Pointer(s.directories, e, i), Register(s.directories, e, i));
  }

  lemma ShareKeepsKernel(s: Space, t: Space, d: int, e: int, i: int)
    requires Shaped(s) && d in s.directories && e in s.directories && d != s.kernel && 0 <= i < 256
    requires t == Share(s, d, e, i)
    requires KernelTables(s.directories, s.kernel, s.tables) && ReservedPages(s) && Translated(s)
    ensures KernelTables(t.directories, t.kernel, t.tables) && ReservedPages(t) && Translated(t)
  {
    PointersAfterEnter(s.directories, t.directories, d, i, Pointer(s.directories, e, i), Register(s.directories, e, i));
    ReservedPagesKept(s, t);
    assert forall b :: EntryOf(t, b) == EntryOf(s, b);
    TranslationKept(s, t);
  }

  lemma ShareKeeps(s: Space, d: int, e: int, i: int)
    requires Sound(s) && d in s.directories && e in s.directories && d != s.kernel && d !in s.live && 0 <= i < 256
    ensures Sound(Share(s, d, e, i))
  {
    Unfold(s);
    var t := Share(s, d, e, i);
    ShareKeepsPossession(s, t, d, e, i);
    ShareKeepsKernel(s, t, d, e, i);
    Fold(t);
  }

  /* Step: other processes are live. */

  /** Any processes may be live whose directories agree with the kernel's below 1 GB. */
  lemma LiveKeeps(s: Space, live: seq<int>)
    requires Sound(s)
    requires forall d :: d in live ==>
               d in s.live || (d in s.directories && d != s.kernel && SameKernelHalf(s.directories, d, s.kernel))
    ensures Sound(s.(live := live))
  {
    Unfold(s);
    var t := s.(live := live);
    assert forall a :: EntryOf(t, a) == EntryOf(s, a);
    TranslationKept(s, t);
    Fold(t);
  }
}

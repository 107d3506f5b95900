/** Page tables, page directories and the frames behind them, as values (src/paging.h, src/paging.c). */
module PageTables {

  /** A page entry; `attributes` stands for the bits the kernel copies but never looks at. */
  datatype Entry = Entry(present: bool, writable: bool, userMode: bool, attributes: nat, frame: nat)

  /** The pointers to the tables (0 for none) and the same tables as the processor sees them. */
  datatype Directory = Directory(tables: seq<int>, x86: seq<int>)

  /** Number `index` of the table or directory at address `at`. */
  datatype Place = Place(at: int, index: int)

  type Tables = map<int, seq<Entry>>
  type Directories = map<int, Directory>

  /** The address spaces of the machine.
      `managed` counts the frames the bitmap knows, `used` holds those whose bit is set; `live` lists the page
      directories of the processes in turn order. `owner` says which entry a frame was handed to, `home` which place of
      which directory a table above 1 GB was made for. */
  datatype Space = Space(
    managed: nat,
    used: set<nat>,
    tables: Tables,
    directories: Directories,
    kernel: int,
    live: seq<int>,
    owner: map<nat, Place>,
    home: map<int, Place>)

  function Zeroed(): Entry {
    Entry(false, false, false, 0, 0)
  }

  function BlankTable(): (table: seq<Entry>)
    ensures |table| == 1024 && forall j :: 0 <= j < 1024 ==> table[j] == Zeroed()
  {
    seq(1024, _ => Zeroed())
  }

  function BlankDirectory(): (directory: Directory)
    ensures |directory.tables| == 1024 && forall i :: 0 <= i < 1024 ==> directory.tables[i] == 0
    ensures |directory.x86| == 1024 && forall i :: 0 <= i < 1024 ==> directory.x86[i] == 0
  {
    Directory(seq(1024, _ => 0), seq(1024, _ => 0))
  }

  /** Kernel tables live at fixed addresses, from 1 MB up. */
  function KernelTableAddress(i: int): int {
    0x100000 + i * 0x1000
  }

  function Pointer(directories: Directories, d: int, i: int): int {
    if d in directories && 0 <= i < |directories[d].tables| then directories[d].tables[i] else 0
  }

  function Register(directories: Directories, d: int, i: int): int {
    if d in directories && 0 <= i < |directories[d].x86| then directories[d].x86[i] else 0
  }

  function EntryIn(tables: Tables, a: int, j: int): Entry {
    if a in tables && 0 <= j < |tables[a]| then tables[a][j] else Zeroed()
  }

  /** The entry of page number 1024 * i + j; nothing is present under a missing table. */
  function EntryAt(s: Space, d: int, i: int, j: int): Entry {
    EntryIn(s.tables, Pointer(s.directories, d, i), j)
  }

  /** The entry that maps an address of the kernel's address space. */
  function EntryOf(s: Space, address: int): Entry {
    EntryAt(s, s.kernel, address / 4096 / 1024, address / 4096 % 1024)
  }

  /** Where an address of the kernel's address space lies in physical memory. */
  function PhysicalAddress(s: Space, address: int): int {
    EntryOf(s, address).frame * 0x1000 + address % 4096
  }

  /** The page of an aligned kernel address is present. */
  predicate Backed(s: Space, address: int) {
    && 0 < address < 0x4000_0000 && address % 4096 == 0
    && EntryOf(s, address).present
  }

  ghost predicate Shaped(s: Space) {
    && (forall a :: a in s.tables ==> a > 0 && |s.tables[a]| == 1024)
    && (forall d :: d in s.directories ==> |s.directories[d].tables| == 1024 && |s.directories[d].x86| == 1024)
    && (forall f :: f in s.used ==> f < s.managed) && s.managed <= 0x100000
    && s.kernel in s.directories
  }

  /** Every table a directory names exists. */
  ghost predicate Rooted(directories: Directories, tables: Tables) {
    forall d, i :: Pointer(directories, d, i) != 0 ==> Pointer(directories, d, i) in tables
  }

  /** Entries that are not present are all zero; frame numbers have 20 bits. */
  ghost predicate Entries(tables: Tables) {
    forall a, j :: if EntryIn(tables, a, j).present then EntryIn(tables, a, j).frame < 0x100000
                   else EntryIn(tables, a, j) == Zeroed()
  }

  /** Every managed frame that is mapped has its bit set, and belongs to the one entry that maps it. */
  ghost predicate Owned(tables: Tables, managed: nat, used: set<nat>, owner: map<nat, Place>) {
    forall a, j :: EntryIn(tables, a, j).present && EntryIn(tables, a, j).frame < managed ==>
      var f := EntryIn(tables, a, j).frame;
      f in used && f in owner && owner[f] == Place(a, j)
  }

  /** Tables above 1 GB belong to one place of one directory; tables below do not. */
  ghost predicate Private(directories: Directories, home: map<int, Place>) {
    forall d, i :: Pointer(directories, d, i) != 0 ==>
      if i < 256 then Pointer(directories, d, i) !in home
      else Pointer(directories, d, i) in home && home[Pointer(directories, d, i)] == Place(d, i)
  }

  /** The pages of a process above 1 GB lie in managed frames. */
  ghost predicate ProcessFrames(tables: Tables, managed: nat, home: map<int, Place>, kernel: int) {
    forall a, j :: EntryIn(tables, a, j).present && a in home && home[a].at != kernel ==>
      EntryIn(tables, a, j).frame < managed
  }

  /** Two directories agree below 1 GB, for the kernel and for the processor. */
  ghost predicate SameKernelHalf(directories: Directories, d: int, e: int) {
    forall i :: 0 <= i < 256 ==>
      && Pointer(directories, d, i) == Pointer(directories, e, i)
      && Register(directories, d, i) == Register(directories, e, i)
  }

  ghost predicate SharedByAll(directories: Directories, kernel: int, live: seq<int>) {
    forall d :: d in live ==> d in directories && d != kernel && SameKernelHalf(directories, d, kernel)
  }

  /** The kernel's tables lie at their fixed addresses; those that hold the pages of the others exist. */
  ghost predicate KernelTables(directories: Directories, kernel: int, tables: Tables) {
    && (forall i :: Pointer(directories, kernel, i) == 0 || Pointer(directories, kernel, i) == KernelTableAddress(i))
    && (forall i :: 0 <= i < 1024 && Pointer(directories, kernel, i) == 0 ==> KernelTableAddress(i) !in tables)
    && Pointer(directories, kernel, 0) != 0 && Pointer(directories, kernel, 1) != 0
  }

  /** Page number 256 + i, the one reserved for the kernel's table `i`, is present exactly when the table exists.
      The first 768 of these pages are under table 0, the others under table 1. */
  ghost predicate ReservedPages(s: Space) {
    && (forall j :: 256 <= j < 1024 ==>
          EntryAt(s, s.kernel, 0, j).present == (Pointer(s.directories, s.kernel, j - 256) != 0))
    && (forall j :: 0 <= j < 256 ==>
          EntryAt(s, s.kernel, 1, j).present == (Pointer(s.directories, s.kernel, j + 768) != 0))
  }

  /** What the processor follows is what the kernel follows. */
  ghost predicate Translated(s: Space) {
    forall d, i :: d in s.directories && 0 <= i < 1024 ==>
      var a := Pointer(s.directories, d, i);
      if a == 0 then Register(s.directories, d, i) == 0
      else Backed(s, a) && Register(s.directories, d, i) == PhysicalAddress(s, a) + 7
  }

  datatype Clause = Shapes | Roots | Forms | Owners | Homes | ProcessPages | Sharing | Layout | Reserve | Translation

  ghost predicate Holds(s: Space, c: Clause) {
    match c
    case Shapes => Shaped(s)
    case Roots => Rooted(s.directories, s.tables)
    case Forms => Entries(s.tables)
    case Owners => Owned(s.tables, s.managed, s.used, s.owner)
    case Homes => Private(s.directories, s.home)
    case ProcessPages => ProcessFrames(s.tables, s.managed, s.home, s.kernel)
    case Sharing => SharedByAll(s.directories, s.kernel, s.live)
    case Layout => KernelTables(s.directories, s.kernel, s.tables)
    case Reserve => ReservedPages(s)
    case Translation => Translated(s)
  }

  /** The invariant of the address spaces, clause by clause. */
  ghost predicate Sound(s: Space) {
    forall c :: Holds(s, c)
  }

  ghost predicate AllClauses(s: Space) {
    && Shaped(s)
    && Rooted(s.directories, s.tables)
    && Entries(s.tables)
    && Owned(s.tables, s.managed, s.used, s.owner)
    && Private(s.directories, s.home)
    && ProcessFrames(s.tables, s.managed, s.home, s.kernel)
    && SharedByAll(s.directories, s.kernel, s.live)
    && KernelTables(s.directories, s.kernel, s.tables)
    && ReservedPages(s)
    && Translated(s)
  }

  lemma Unfold(s: Space)
    requires Sound(s)
    ensures AllClauses(s)
  {
    assert Holds(s, Shapes) && Holds(s, Roots) && Holds(s, Forms) && Holds(s, Owners) && Holds(s, Homes);
    assert Holds(s, ProcessPages) && Holds(s, Sharing) && Holds(s, Layout) && Holds(s, Reserve);
    assert Holds(s, Translation);
  }

  lemma Fold(s: Space)
    requires AllClauses(s)
    ensures Sound(s)
  {}

  lemma DirectorySize(s: Space, d: int)
    requires Sound(s) && d in s.directories
    ensures |s.directories[d].tables| == 1024 && |s.directories[d].x86| == 1024
  {
    assert Holds(s, Shapes);
  }

  lemma TableIsThere(s: Space, d: int, i: int)
    requires Sound(s) && Pointer(s.directories, d, i) != 0
    ensures var a := Pointer(s.directories, d, i); a > 0 && a in s.tables && |s.tables[a]| == 1024
  {
    assert Holds(s, Shapes) && Holds(s, Roots);
  }

  lemma NullIsNoTable(s: Space)
    requires Sound(s)
    ensures 0 !in s.tables && s.kernel in s.directories
  {
    assert Holds(s, Shapes);
  }

  /** No other place of any directory leads to the table of a place above 1 GB. */
  lemma OnlyPlace(s: Space, d: int, i: int)
    requires Private(s.directories, s.home) && 256 <= i && Pointer(s.directories, d, i) != 0
    ensures forall e, k :: Pointer(s.directories, e, k) == Pointer(s.directories, d, i) ==> e == d && k == i
  {
    forall e, k | Pointer(s.directories, e, k) == Pointer(s.directories, d, i) ensures e == d && k == i {
      var a := Pointer(s.directories, d, i);
      assert a in s.home && s.home[a] == Place(d, i);
      assert k >= 256 ==> s.home[a] == Place(e, k);
    }
  }

  /** No managed frame is mapped by two entries, and every mapped one has its bit set. */
  lemma NoFrameMappedTwice(s: Space, a: int, j: int, b: int, k: int)
    requires Sound(s) && EntryIn(s.tables, a, j).present && EntryIn(s.tables, b, k).present
    requires EntryIn(s.tables, a, j).frame == EntryIn(s.tables, b, k).frame < s.managed
    ensures a == b && j == k && EntryIn(s.tables, a, j).frame in s.used
  {
    assert Holds(s, Owners);
    assert s.owner[EntryIn(s.tables, a, j).frame] == Place(a, j) == Place(b, k);
  }

  /** Two pages above 1 GB, of whatever processes, never share a table. */
  lemma TablesArePrivate(s: Space, d: int, i: int, e: int, k: int)
    requires Sound(s) && 256 <= i && 256 <= k
    requires Pointer(s.directories, d, i) == Pointer(s.directories, e, k) != 0
    ensures d == e && i == k
  {
    assert Holds(s, Homes);
    assert s.home[Pointer(s.directories, d, i)] == Place(d, i) == Place(e, k);
  }
}

/** Every run over the address spaces (src/paging.c, src/process.c), however its steps interleave: cloning may be
    interrupted by the creation of kernel pages, as happens when the kernel's heap grows in the middle of it. */
module SpaceRuns {
  import opened PageTables
  import opened SpaceSteps
  import opened ProcessRing

  datatype Step =
    | FillProcessEntry(a: int, j: int, e: Entry)
    | FillKernelEntry(i: int, j: int, e: Entry)
    | AddKernelTable(i: int, frame: nat)
    | MakeDirectory(d: int)
    | MakeTable(a: int, d: int, i: int)
    | EnterTable(d: int, i: int, a: int)
    | ShareTable(d: int, source: int, i: int)
    | ReleaseEntry(a: int, j: int)
    | FreeTable(d: int, i: int)
    | GoLive(d: int)
    | Leave
    | Turn

  ghost predicate Enabled(s: Space, step: Step) {
    match step
    case FillProcessEntry(a, j, e) => CanMap(s, a, j, e) && a in s.home
    case FillKernelEntry(i, j, e) =>
      && 0 <= i < 256 && CanMap(s, Pointer(s.directories, s.kernel, i), j, e) && !(256 <= 1024 * i + j < 1280)
    case AddKernelTable(i, frame) => CanAddKernelTable(s, i, frame)
    case MakeDirectory(d) => d !in s.directories
    case MakeTable(a, d, i) => FromHeap(s, a)
    case EnterTable(d, i, a) =>
      && d in s.directories && d != s.kernel && 256 <= i < 1024 && Pointer(s.directories, d, i) == 0
      && a in s.tables && Backed(s, a) && a in s.home && s.home[a] == Place(d, i)
    case ShareTable(d, e, i) =>
      d in s.directories && e in s.directories && d != s.kernel && d !in s.live && 0 <= i < 256
    case ReleaseEntry(a, j) => EntryIn(s.tables, a, j).present && a in s.home && s.home[a].at != s.kernel
    case FreeTable(d, i) =>
      && d in s.directories && d != s.kernel && 256 <= i < 1024 && Pointer(s.directories, d, i) != 0
      && (forall j :: !EntryAt(s, d, i, j).present)
    case GoLive(d) => d in s.directories && d != s.kernel && SameKernelHalf(s.directories, d, s.kernel)
    case Leave => |s.live| > 0
    case Turn => |s.live| > 0
  }

  function After(s: Space, step: Step): Space {
    match step
    case FillProcessEntry(a, j, e) => MapFrame(s, a, j, e)
    case FillKernelEntry(i, j, e) => MapFrame(s, Pointer(s.directories, s.kernel, i), j, e)
    case AddKernelTable(i, frame) => KernelTableAdded(s, i, frame)
    case MakeDirectory(d) => NewDirectory(s, d)
    case MakeTable(a, d, i) => NewTable(s, a, d, i)
    case EnterTable(d, i, a) => Attach(s, d, i, a)
    case ShareTable(d, e, i) => Share(s, d, e, i)
    case ReleaseEntry(a, j) => Unmap(s, a, j)
    case FreeTable(d, i) => DropTable(s, d, i)
    case GoLive(d) => s.(live := s.live + [d])
    case Leave => if |s.live| > 0 then s.(live := s.live[1..]) else s
    case Turn => if |s.live| > 0 then s.(live := Rotated(s.live)) else s
  }

  /** No entry of a kernel table is among those kept for the kernel's tables, and none of a process's table is. */
  lemma FillIsFree(s: Space, step: Step)
    requires Sound(s) && Enabled(s, step) && (step.FillProcessEntry? || step.FillKernelEntry?)
    ensures Sound(After(s, step))
  {
    assert Holds(s, Layout) && Holds(s, Homes) && Holds(s, Shapes);
    match step
    case FillProcessEntry(a, j, e) =>
      assert a != Pointer(s.directories, s.kernel, 0) && a != Pointer(s.directories, s.kernel, 1);
      MapFrameKeeps(s, a, j, e);
    case FillKernelEntry(i, j, e) =>
      var a := Pointer(s.directories, s.kernel, i);
      assert a == KernelTableAddress(i);
      assert Pointer(s.directories, s.kernel, 0) == KernelTableAddress(0);
      assert Pointer(s.directories, s.kernel, 1) == KernelTableAddress(1);
      MapFrameKeeps(s, a, j, e);
  }

  lemma StepKeeps(s: Space, step: Step)
    requires Sound(s) && Enabled(s, step)
    ensures Sound(After(s, step))
  {
    match step
    case FillProcessEntry(a, j, e) => FillIsFree(s, step);
    case FillKernelEntry(i, j, e) => FillIsFree(s, step);
    case AddKernelTable(i, frame) => KernelTableAddedKeeps(s, i, frame);
    case MakeDirectory(d) => NewDirectoryKeeps(s, d);
    case MakeTable(a, d, i) => NewTableKeeps(s, a, d, i);
    case EnterTable(d, i, a) => AttachKeeps(s, d, i, a);
    case ShareTable(d, e, i) => ShareKeeps(s, d, e, i);
    case ReleaseEntry(a, j) => UnmapKeeps(s, a, j);
    case FreeTable(d, i) => DropTableKeeps(s, d, i);
    case GoLive(d) => LiveKeeps(s, s.live + [d]);
    case Leave => LiveKeeps(s, s.live[1..]);
    case Turn => LiveKeeps(s, Rotated(s.live));
  }

  ghost predicate Run(s: Space, steps: seq<Step>)
    decreases |steps|
  {
    steps == [] || (Enabled(s, steps[0]) && Run(After(s, steps[0]), steps[1..]))
  }

  function End(s: Space, steps: seq<Step>): Space
    decreases |steps|
  {
    if steps == [] then s else End(After(s, steps[0]), steps[1..])
  }

  lemma {:induction false} RunIsSound(s: Space, steps: seq<Step>)
    requires Sound(s) && Run(s, steps)
    ensures Sound(End(s, steps))
    decreases |steps|
  {
    if steps != [] {
      StepKeeps(s, steps[0]);
      RunIsSound(After(s, steps[0]), steps[1..]);
    }
  }

  /** Some run leads from `s` to `t`. */
  ghost predicate Reaches(s: Space, t: Space) {
    exists steps :: Run(s, steps) && End(s, steps) == t
  }

  lemma NoStep(s: Space)
    ensures Reaches(s, s)
  {
    assert Run(s, []) && End(s, []) == s;
  }

  lemma OneStep(s: Space, step: Step)
    requires Sound(s) && Enabled(s, step)
    ensures Reaches(s, After(s, step)) && Sound(After(s, step))
  {
    StepKeeps(s, step);
    var t, steps := After(s, step), [step];
    assert steps[1..] == [];
    assert Run(t, []) && End(t, []) == t;
    assert Run(s, steps) && End(s, steps) == t;
  }

  lemma {:induction false} RunsJoin(s: Space, before: seq<Step>, after: seq<Step>)
    requires Run(s, before) && Run(End(s, before), after)
    ensures Run(s, before + after) && End(s, before + after) == End(End(s, before), after)
    decreases |before|
  {
    if before == [] {
      assert before + after == after;
    } else {
      RunsJoin(After(s, before[0]), before[1..], after);
      assert (before + after)[1..] == before[1..] + after;
    }
  }

  lemma ReachesOn(s: Space, t: Space, u: Space)
    requires Reaches(s, t) && Reaches(t, u)
    ensures Reaches(s, u)
  {
    var before :| Run(s, before) && End(s, before) == t;
    var after :| Run(t, after) && End(t, after) == u;
    RunsJoin(s, before, after);
  }

  lemma ReachedIsSound(s: Space, t: Space)
    requires Sound(s) && Reaches(s, t)
    ensures Sound(t)
  {
    var steps :| Run(s, steps) && End(s, steps) == t;
    RunIsSound(s, steps);
  }

  /** After every run: two entries that map the same managed frame are one and the same, and the frame's bit is set. */
  lemma FramesAreOwnedInEveryRun(s: Space, steps: seq<Step>, a: int, j: int, b: int, k: int)
    requires Sound(s) && Run(s, steps)
    requires var t := End(s, steps);
             && EntryIn(t.tables, a, j).present && EntryIn(t.tables, b, k).present
             && EntryIn(t.tables, a, j).frame == EntryIn(t.tables, b, k).frame < t.managed
    ensures a == b && j == k && EntryIn(End(s, steps).tables, a, j).frame in End(s, steps).used
  {
    RunIsSound(s, steps);
    NoFrameMappedTwice(End(s, steps), a, j, b, k);
  }

  /** After every run all live processes agree with the kernel below 1 GB. */
  lemma ProcessesAgreeInEveryRun(s: Space, steps: seq<Step>, d: int)
    requires Sound(s) && Run(s, steps) && d in End(s, steps).live
    ensures SameKernelHalf(End(s, steps).directories, d, End(s, steps).kernel)
  {
    RunIsSound(s, steps);
    assert Holds(End(s, steps), Sharing);
  }

  lemma FillKeepsKernelPages(s: Space, t: Space, a: int, j: int, e: Entry)
    requires CanMap(s, a, j, e) && t == MapFrame(s, a, j, e)
    ensures KernelKept(s, t)
  {
    EntriesAfterMap(s, t, a, j, e);
  }

  lemma AddKeepsKernelPages(s: Space, i: int, frame: nat)
    requires Sound(s) && CanAddKernelTable(s, i, frame)
    ensures KernelKept(s, KernelTableAdded(s, i, frame))
  {
    assert Holds(s, Shapes) && Holds(s, Layout) && Holds(s, Roots) && Holds(s, Sharing) && Holds(s, Reserve);
    KernelTableAddedPointwise(s, i, frame);
    assert EntryAt(s, s.kernel, 0, 256 + i).present == (Pointer(s.directories, s.kernel, 256 + i - 256) != 0);
  }

  lemma ReleaseKeepsKernelPages(s: Space, step: Step)
    requires Sound(s) && Enabled(s, step) && (step.ReleaseEntry? || step.FreeTable?)
    ensures KernelKept(s, After(s, step))
  {
    assert Holds(s, Shapes) && Holds(s, Homes);
    var t := After(s, step);
    match step
    case ReleaseEntry(a, j) => EntriesAfterUnmap(s, t, a, j);
    case FreeTable(d, i) =>
      PointersAfterEnter(s.directories, t.directories, d, i, 0, 0);
      EntriesAfterDrop(s.tables, t.tables, Pointer(s.directories, d, i));
  }

  lemma EnterKeepsKernelPages(s: Space, t: Space, d: int, i: int, a: int, x: int)
    requires Shaped(s) && d in s.directories && d != s.kernel && 0 <= i < 1024
    requires t == s.(directories := Entered(s.directories, d, i, a, x))
    ensures KernelKept(s, t)
  {
    PointersAfterEnter(s.directories, t.directories, d, i, a, x);
  }

  lemma StepKeepsKernelPages(s: Space, step: Step)
    requires Sound(s) && Enabled(s, step)
    ensures KernelKept(s, After(s, step))
  {
    assert Holds(s, Shapes);
    var t := After(s, step);
    match step
    case FillProcessEntry(a, j, e) => FillKeepsKernelPages(s, t, a, j, e);
    case FillKernelEntry(i, j, e) => FillKeepsKernelPages(s, t, Pointer(s.directories, s.kernel, i), j, e);
    case AddKernelTable(i, frame) => AddKeepsKernelPages(s, i, frame);
    case MakeDirectory(d) => PointersAfterBlank(s.directories, t.directories, d);
    case MakeTable(a, d, i) => BlankChangesNothing(s.tables, t.tables, a);
    case EnterTable(d, i, a) => EnterKeepsKernelPages(s, t, d, i, a, PhysicalAddress(s, a) + 7);
    case ShareTable(d, e, i) =>
      EnterKeepsKernelPages(s, t, d, i, Pointer(s.directories, e, i), Register(s.directories, e, i));
    case ReleaseEntry(a, j) => ReleaseKeepsKernelPages(s, step);
    case FreeTable(d, i) => ReleaseKeepsKernelPages(s, step);
    case GoLive(d) =>
    case Leave =>
    case Turn =>
  }

  /** A page of the kernel, once mapped, stays mapped to the same frame through every run. */
  lemma {:induction false} KernelPagesStay(s: Space, steps: seq<Step>, i: int, j: int)
    requires Sound(s) && Run(s, steps) && i < 256 && EntryAt(s, s.kernel, i, j).present
    ensures End(s, steps).kernel == s.kernel
    ensures EntryAt(End(s, steps), s.kernel, i, j) == EntryAt(s, s.kernel, i, j)
    decreases |steps|
  {
    if steps != [] {
      StepKeeps(s, steps[0]);
      StepKeepsKernelPages(s, steps[0]);
      KernelPagesStay(After(s, steps[0]), steps[1..], i, j);
    }
  }
}

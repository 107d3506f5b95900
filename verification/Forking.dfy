/** What comes and goes with the processes (src/process.c): forks, exits and switches. */
module Forking {
  import opened PageTables
  import opened SpaceSteps
  import SpaceRuns
  import opened KernelGrowth
  import opened ProcessRing
  import opened Cleaning
  import opened Cloning
  import opened CloneSteps

  /** Whether a fork succeeds: the frames suffice, and all kernel tables that the growth during the clone needs exist,
      or are made while the child is allocated. */
  ghost predicate Forkable(s: Space, childPages: seq<nat>, source: int, supply: CloneSupply) {
    var pages := childPages + AllPages(s, source, supply);
    && |s.used| + PresentFrom(s, source, 256) + Need(s, pages) <= s.managed
    && TablesMissing(s, pages) == TablesMissing(s, childPages)
  }

  lemma ChildPagesFit(s: Space, childPages: seq<nat>, source: int, supply: CloneSupply)
    requires Supplied(s, childPages, source, supply)
    ensures Growable(s, childPages)
    ensures Need(s, childPages) <= Need(s, childPages + AllPages(s, source, supply))
  {
    GrowablePart(s, childPages, AllPages(s, source, supply));
    NeedGrows(s, childPages, AllPages(s, source, supply));
  }

  /** The same once the child is allocated. */
  lemma ForkFits(s: Space, grown: Space, childPages: seq<nat>, source: int, supply: CloneSupply, ok: bool)
    requires Supplied(s, childPages, source, supply) && Sound(s)
    requires ok <==> |s.used| + Need(s, childPages) <= s.managed
    requires ok ==> Sound(grown) && GrownBy(s, grown, childPages)
    ensures ok ==> Supplied(grown, [], source, supply)
    ensures Forkable(s, childPages, source, supply)
            <==> && ok && |grown.used| + FramesNeeded(grown, source, supply) <= s.managed
                 && TablesMissing(grown, AllPages(grown, source, supply)) == {}
  {
    ChildPagesFit(s, childPages, source, supply);
    if ok {
      SuppliedAfterGrowth(s, grown, childPages, source, supply);
      NeedAfterGrowth(s, grown, childPages, source, supply);
    }
  }

  lemma SourceIsLive(s: Space, d: int)
    requires Sound(s) && d in s.live
    ensures d in s.directories && d != s.kernel
  {
    assert Holds(s, Sharing);
  }

  /** The clone of a live process's address space has all of the kernel's half, so the child may go live. */
  lemma CloneIsLive(s: Space, t: Space, source: int, d: int, n: seq<Page>, m: seq<Page>)
    requires Sound(s) && Sound(t) && Cloned(s, m, t, n, source, d) && d !in s.directories
    requires source in s.live && SpaceRuns.Reaches(s, t)
    ensures Sound(t.(live := t.live + [d])) && SpaceRuns.Reaches(s, t.(live := t.live + [d])) && t.live == s.live
  {
    NotLive(s, d);
    CloneHasTheKernelHalf(s, m, t, n, source, d);
    SpaceRuns.OneStep(t, SpaceRuns.GoLive(d));
    SpaceRuns.ReachesOn(s, t, t.(live := t.live + [d]));
  }

  /** All processes but the child are as they were; the child has its pid. */
  ghost predicate OnlyChild(before: Processes, after: Processes, child: int, pid: nat) {
    && after.Keys == before.Keys && child in after && after[child].pid == pid
    && forall p :: p in after && p != child ==> after[p] == before[p]
  }

  lemma OthersStay(before: Processes, linked: Processes, after: Processes, child: int, pid: nat)
    requires SameProcesses(before, linked) && OnlyChild(linked, after, child, pid) && child !in before
    ensures SameProcesses(before, after)
  {}

  lemma OneLeaves(s: Space, t: Space)
    requires Sound(t) && SpaceRuns.Reaches(s, t) && |t.live| > 0
    ensures SpaceRuns.Reaches(s, t.(live := t.live[1..]))
  {
    SpaceRuns.OneStep(t, SpaceRuns.Leave);
    SpaceRuns.ReachesOn(s, t, t.(live := t.live[1..]));
  }

  lemma FewerAreLive(s: Space)
    requires Sound(s)
    ensures |s.live| > 0 ==> Sound(s.(live := s.live[1..]))
  {
    if |s.live| > 0 {
      LiveKeeps(s, s.live[1..]);
    }
  }

  lemma TurnedAreLive(s: Space)
    requires Sound(s)
    ensures |s.live| > 0 ==> Sound(s.(live := Rotated(s.live))) && SpaceRuns.Reaches(s, s.(live := Rotated(s.live)))
  {
    if |s.live| > 0 {
      SpaceRuns.OneStep(s, SpaceRuns.Turn);
    }
  }
}

/** The allocator over whole runs: any sequence of completed allocations, releases of live blocks, and writes of the
    client into live blocks. */
module AllocatorRuns {
  import opened AllocatorLaws
  import opened KallocHeap
  import opened Ram
  import opened Segments
  import opened SegmentOps

  datatype Event =
    | Allocation(request: nat, alignment: nat, grownBy: nat, i: nat, gap: nat, ptr: nat)
    | Release(i: nat, ptr: nat)
    | Write(i: nat, ptr: nat)

  /** The segments of the heap, and the memory they lie in. */
  datatype State = State(segs: seq<Segment>, m: Bytes)

  /** One step: what `Heap.Alloc` or `Heap.Free` makes of segments and memory, or a client of the memory. */
  ghost predicate Step(a: State, e: Event, b: State) {
    a.segs != [] &&
    match e
    case Allocation(request, alignment, grownBy, i, gap, ptr) =>
      && Allocated(a.segs, request, alignment, grownBy, i, gap, Given(ptr), b.segs)
      && PayloadsKept(a.m, b.m, a.segs)
    case Release(i, ptr) =>
      && i < |a.segs| && a.segs[i].used && ptr == UserAddr(a.segs[i])
      && b.segs == Freed(a.segs, i) && OthersKept(a.m, b.m, a.segs, a.segs[i])
    case Write(i, ptr) =>
      && i < |a.segs| && a.segs[i].used && ptr == UserAddr(a.segs[i])
      && b.segs == a.segs && Changed(a.m, b.m, UserAddr(a.segs[i]), FooterAddr(a.segs[i]))
  }

  ghost predicate Run(states: seq<State>, events: seq<Event>) {
    |states| == |events| + 1 && forall k :: 0 <= k < |events| ==> Step(states[k], events[k], states[k + 1])
  }

  function PagesOf(e: Event): nat {
    if e.Allocation? then e.grownBy else 0
  }

  /** The end of the heap after `k` steps. */
  ghost function TopAfter(hi: nat, events: seq<Event>, k: nat): nat
    requires k <= |events|
  {
    if k == 0 then hi else TopAfter(hi, events, k - 1) + PageBytes(PagesOf(events[k - 1]))
  }

  /** The addresses a client holds after `k` steps, going by what it was given and what it gave back. */
  ghost function Held(start: set<nat>, events: seq<Event>, k: nat): set<nat>
    requires k <= |events|
  {
    if k == 0 then start
    else
      var e, held := events[k - 1], Held(start, events, k - 1);
      if e.Allocation? then held + {e.ptr} else if e.Release? then held - {e.ptr} else held
  }

  lemma StepIsSound(a: State, e: Event, b: State, lo: nat, hi: nat, top: nat)
    requires Tiles(a.segs, lo, hi) && NoTwins(a.segs) && Step(a, e, b) && top == hi + PageBytes(PagesOf(e))
    ensures NoTwins(b.segs) && Tiles(b.segs, lo, top)
    ensures e.Allocation? ==> e.ptr !in Live(a.segs) && Live(b.segs) == Live(a.segs) + {e.ptr}
    ensures e.Release? ==> e.ptr in Live(a.segs) && Live(b.segs) == Live(a.segs) - {e.ptr}
    ensures e.Write? ==> e.ptr in Live(a.segs) && Live(b.segs) == Live(a.segs)
  {
    if e.Allocation? {
      AllocationStepIsSound(a, e, b, lo, hi, top);
    } else {
      ReleaseIsSound(a.segs, e.i, lo, hi);
      assert a.segs[e.i] in a.segs;
    }
  }

  lemma AllocationStepIsSound(a: State, e: Event, b: State, lo: nat, hi: nat, top: nat)
    requires Tiles(a.segs, lo, hi) && NoTwins(a.segs) && Step(a, e, b)
    requires e.Allocation? && top == hi + PageBytes(e.grownBy)
    ensures NoTwins(b.segs) && Tiles(b.segs, lo, top)
    ensures e.ptr !in Live(a.segs) && Live(b.segs) == Live(a.segs) + {e.ptr}
  {
    AllocationIsSound(a.segs, e.request, e.alignment, e.grownBy, e.i, e.gap, Given(e.ptr), b.segs, lo, hi);
  }

  /** At every point of every run the segments tile the heap, no two holes touch, and exactly the addresses the client
      holds are live. */
  lemma {:induction false} RunIsSound(states: seq<State>, events: seq<Event>, lo: nat, hi: nat, k: nat)
    requires Run(states, events) && k <= |events|
    requires Tiles(states[0].segs, lo, hi) && NoTwins(states[0].segs)
    ensures Tiles(states[k].segs, lo, TopAfter(hi, events, k)) && NoTwins(states[k].segs)
    ensures Live(states[k].segs) == Held(Live(states[0].segs), events, k)
    decreases k
  {
    if k > 0 {
      RunIsSound(states, events, lo, hi, k - 1);
      assert Step(states[k - 1], events[k - 1], states[k - 1 + 1]);
      StepIsSound(states[k - 1], events[k - 1], states[k], lo, TopAfter(hi, events, k - 1), TopAfter(hi, events, k));
    }
  }

  /** An address handed out is never one that the client still holds. */
  lemma NothingHandedOutTwice(states: seq<State>, events: seq<Event>, lo: nat, hi: nat, k: nat)
    requires Run(states, events) && k < |events| && Tiles(states[0].segs, lo, hi) && NoTwins(states[0].segs)
    requires events[k].Allocation?
    ensures events[k].ptr !in Held(Live(states[0].segs), events, k)
  {
    RunIsSound(states, events, lo, hi, k);
    StepIsSound(states[k], events[k], states[k + 1], lo, TopAfter(hi, events, k), TopAfter(hi, events, k + 1));
  }

  /** No event releases the block at `ptr`, or writes into it. */
  predicate Spares(e: Event, ptr: nat) {
    !e.Allocation? ==> e.ptr != ptr
  }

  lemma StepKeepsBlock(a: State, e: Event, b: State, lo: nat, hi: nat, s: Segment)
    requires Tiles(a.segs, lo, hi) && NoTwins(a.segs) && Step(a, e, b) && s in a.segs && s.used
    requires e.Release? ==> e.ptr != UserAddr(s)
    ensures Kept(s, b.segs)
    ensures Spares(e, UserAddr(s)) ==> Agree(a.m, b.m, UserAddr(s), FooterAddr(s))
  {
    match e {
      case Allocation(request, alignment, grownBy, i, gap, ptr) =>
        AllocationKeepsBlocks(a.segs, request, alignment, grownBy, i, gap, Given(ptr), b.segs);
      case Release(i, ptr) =>
        ReleaseIsSound(a.segs, i, lo, hi);
        KeptAs(s, b.segs, s);
      case Write(i, ptr) =>
        KeptAs(s, b.segs, s);
        if s != a.segs[i] {
          LiveBlocksApart(a.segs, lo, hi, s, a.segs[i]);
        }
    }
  }

  lemma StepKeepsKept(a: State, e: Event, b: State, lo: nat, hi: nat, s: Segment)
    requires Tiles(a.segs, lo, hi) && NoTwins(a.segs) && Step(a, e, b) && Kept(s, a.segs)
    requires e.Release? ==> e.ptr != UserAddr(s)
    ensures Kept(s, b.segs)
    ensures Spares(e, UserAddr(s)) ==> Agree(a.m, b.m, UserAddr(s), FooterAddr(s))
  {
    var n :| 0 <= n < |a.segs| && Covers(a.segs[n], s);
    StepKeepsBlock(a, e, b, lo, hi, a.segs[n]);
    var l :| 0 <= l < |b.segs| && Covers(b.segs[l], a.segs[n]);
    KeptAs(s, b.segs, b.segs[l]);
  }

  lemma SurvivesStep(states: seq<State>, events: seq<Event>, lo: nat, hi: nat, k: nat, next: nat, s: Segment)
    requires Run(states, events) && k < |events| && next == k + 1
    requires Tiles(states[0].segs, lo, hi) && NoTwins(states[0].segs)
    requires Kept(s, states[k].segs) && (events[k].Release? ==> events[k].ptr != UserAddr(s))
    ensures Kept(s, states[next].segs)
    ensures Spares(events[k], UserAddr(s)) ==> Agree(states[k].m, states[next].m, UserAddr(s), FooterAddr(s))
  {
    RunIsSound(states, events, lo, hi, k);
    assert Step(states[k], events[k], states[k + 1]);
    StepKeepsKept(states[k], events[k], states[next], lo, TopAfter(hi, events, k), s);
  }

  /** A block stays where it is and never shrinks until its own address is released, however long the run; and as long
      as its owner does not write into it, its bytes stay as they are, whatever happens to all others. */
  lemma {:induction false} BlockSurvives(states: seq<State>, events: seq<Event>, lo: nat, hi: nat, j: nat, k: nat,
                                         s: Segment)
    requires Run(states, events) && j <= k <= |events| && Tiles(states[0].segs, lo, hi) && NoTwins(states[0].segs)
    requires s in states[j].segs && s.used
    requires forall n :: j <= n < k && events[n].Release? ==> events[n].ptr != UserAddr(s)
    ensures Kept(s, states[k].segs)
    ensures (forall n :: j <= n < k ==> Spares(events[n], UserAddr(s))) ==>
              Agree(states[j].m, states[k].m, UserAddr(s), FooterAddr(s))
    decreases k
  {
    if j == k {
      KeptAs(s, states[k].segs, s);
    } else {
      BlockSurvives(states, events, lo, hi, j, k - 1, s);
      SurvivesStep(states, events, lo, hi, k - 1, k, s);
    }
  }

  lemma {:induction false} TopOnlyRises(hi: nat, events: seq<Event>, k: nat)
    requires k <= |events|
    ensures TopAfter(hi, events, k) >= hi
    decreases k
  {
    if k > 0 {
      TopOnlyRises(hi, events, k - 1);
    }
  }

  /** Once the client has given everything back, the heap is a single hole over all its pages. */
  lemma RunEndsWhole(states: seq<State>, events: seq<Event>, lo: nat, hi: nat)
    requires Run(states, events) && Tiles(states[0].segs, lo, hi) && NoTwins(states[0].segs) && hi >= lo + 20
    requires Held(Live(states[0].segs), events, |events|) == {}
    ensures TopAfter(hi, events, |events|) >= lo + 20
    ensures states[|events|].segs == [Segment(lo, TopAfter(hi, events, |events|) - lo - 20, false)]
  {
    var n, top := |events|, TopAfter(hi, events, |events|);
    TopOnlyRises(hi, events, n);
    RunIsSound(states, events, lo, hi, n);
    var last := states[n].segs;
    assert last != [];
    EmptyHeapIsOneHole(last, lo, top);
  }
}

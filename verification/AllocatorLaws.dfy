/** What the steps of the allocator mean to its users: which blocks are live, where, and how large. */
module AllocatorLaws {
  import opened Alignment
  import opened HoleSearch
  import opened HoleTree
  import opened KallocAvl
  import opened KallocHeap
  import opened Ram
  import opened Segments
  import opened SegmentOps

  /** The addresses handed out and not yet released. */
  ghost function Live(segs: seq<Segment>): set<nat> {
    set s | s in segs && s.used :: UserAddr(s)
  }

  /** Segments lie apart: an earlier one ends, tags included, before a later one starts. */
  lemma {:induction false} InOrder(segs: seq<Segment>, j: nat, k: nat, lo: nat, hi: nat)
    requires Tiles(segs, lo, hi) && j < k < |segs|
    ensures End(segs[j]) <= segs[k].addr
    decreases k
  {
    TileAt(segs, k, lo, hi);
    if j < k - 1 {
      InOrder(segs, j, k - 1, lo, hi);
    }
  }

  /** Live blocks never overlap: of two with different addresses, one's payload ends before the other's starts. */
  lemma LiveBlocksApart(segs: seq<Segment>, lo: nat, hi: nat, s: Segment, t: Segment)
    requires Tiles(segs, lo, hi) && s in segs && t in segs && s != t
    ensures s.addr != t.addr
    ensures FooterAddr(s) <= UserAddr(t) || FooterAddr(t) <= UserAddr(s)
  {
    var j :| 0 <= j < |segs| && segs[j] == s;
    var k :| 0 <= k < |segs| && segs[k] == t;
    if j < k {
      InOrder(segs, j, k, lo, hi);
    } else {
      InOrder(segs, k, j, lo, hi);
    }
  }

  /** Tags and payloads account for every byte of the heap. */
  ghost function Space(segs: seq<Segment>): nat {
    if segs == [] then 0 else TagsSize + segs[0].size + Space(segs[1..])
  }

  lemma {:induction false} SpaceIsAccounted(segs: seq<Segment>, lo: nat, hi: nat)
    requires Tiles(segs, lo, hi)
    ensures lo + Space(segs) == hi
    decreases |segs|
  {
    if segs != [] {
      SpaceIsAccounted(segs[1..], End(segs[0]), hi);
    }
  }

  /** Of two neighbours at least one is live. */
  lemma NeighboursAreNotBothHoles(segs: seq<Segment>)
    requires NoTwins(segs) && |segs| > 1
    ensures Live(segs) != {}
  {
    var k := if segs[0].used then 0 else 1;
    assert segs[k] in segs && UserAddr(segs[k]) in Live(segs);
  }

  /** A heap with no live block is one hole again, whatever was allocated and released before. */
  lemma EmptyHeapIsOneHole(segs: seq<Segment>, lo: nat, hi: nat)
    requires Tiles(segs, lo, hi) && NoTwins(segs) && segs != [] && Live(segs) == {}
    ensures hi >= lo + TagsSize && segs == [Segment(lo, hi - lo - TagsSize, false)]
  {
    if |segs| > 1 {
      NeighboursAreNotBothHoles(segs);
      assert false;
    }
    TileAt(segs, 0, lo, hi);
    var s := segs[0];
    assert s in segs && (s.used ==> UserAddr(s) in Live(segs));
  }

  /** Without alignment a request is served by the first fitting hole of the index, at its very start. */
  lemma UnalignedIsBestFit(segs: seq<Segment>, i: nat, gap: nat, request: nat)
    requires Chosen(segs, i, gap, request, 0)
    ensures gap == 0
    ensures forall h :: h in HolesOf(segs) && h.size >= request ==>
              segs[i].size < h.size || (segs[i].size == h.size && UserAddr(segs[i]) <= h.addr)
  {
    forall h | h in HolesOf(segs) && h.size >= request ensures HoleOf(segs[i]) == h || Less(HoleOf(segs[i]), h) {
      assert Roomy(h, request, 0);
    }
  }

  /** What serving makes of the run, segment by segment: the block has exactly the size asked for and the rest is a
      hole, if more than 20 bytes are left, and else it is all of the hole; bytes skipped to align it go to the block
      before. */
  lemma ServedIs(segs: seq<Segment>, i: nat, gap: nat, request: nat)
    requires i < |segs| && !segs[i].used && gap + request <= segs[i].size && (gap > 0 ==> i > 0)
    ensures var out, left := Served(segs, i, gap, request), segs[i].size - gap - request;
            var start := segs[i].addr + gap;
            && |out| == (if left > 20 then |segs| + 1 else |segs|)
            && out[i] == Segment(start, if left > 20 then request else request + left, true)
            && (left > 20 ==> out[i + 1] == Segment(start + request + 20, left - 20, false))
            && (i > 0 ==> out[i - 1] == Segment(segs[i - 1].addr, segs[i - 1].size + gap, segs[i - 1].used))
            && (forall k :: 0 <= k < i - 1 ==> out[k] == segs[k])
            && (forall k :: i < k < |segs| ==> out[if left > 20 then k + 1 else k] == segs[k])
  {
    var shifted := Shifted(segs, i, gap);
    ShiftedIs(segs, i, gap);
    TakenIs(shifted, i, request);
  }

  lemma ShiftedIs(segs: seq<Segment>, i: nat, gap: nat)
    requires i < |segs| && gap <= segs[i].size && (gap > 0 ==> i > 0)
    ensures var out := Shifted(segs, i, gap);
            && |out| == |segs| && out[i] == Segment(segs[i].addr + gap, segs[i].size - gap, segs[i].used)
            && (i > 0 ==> out[i - 1] == Segment(segs[i - 1].addr, segs[i - 1].size + gap, segs[i - 1].used))
            && (forall k :: 0 <= k < i - 1 ==> out[k] == segs[k])
            && (forall k :: i < k < |segs| ==> out[k] == segs[k])
  {}

  lemma TakenIs(segs: seq<Segment>, i: nat, request: nat)
    requires i < |segs| && !segs[i].used && request <= segs[i].size
    ensures var out, left := Taken(segs, i, request), segs[i].size - request;
            && |out| == (if left > 20 then |segs| + 1 else |segs|)
            && out[i] == Segment(segs[i].addr, if left > 20 then request else request + left, true)
            && (left > 20 ==> out[i + 1] == Segment(segs[i].addr + request + 20, left - 20, false))
            && (forall k :: 0 <= k < i ==> out[k] == segs[k])
            && (forall k :: i < k < |segs| ==> out[if left > 20 then k + 1 else k] == segs[k])
  {
    var taken := TakenFrom(segs[i], request);
    assert Taken(segs, i, request) == segs[..i] + taken + segs[i + 1..];
  }

  /** Releasing a block that was just cut from a hole gives back the run of segments exactly. */
  lemma FreeUndoesTake(segs: seq<Segment>, i: nat, request: nat, lo: nat, hi: nat)
    requires Tiles(segs, lo, hi) && NoTwins(segs) && i < |segs| && !segs[i].used && request <= segs[i].size
    ensures i < |Taken(segs, i, request)| && Taken(segs, i, request)[i].used
    ensures Freed(Taken(segs, i, request), i) == segs
  {
    var taken, h := Taken(segs, i, request), segs[i];
    if i > 0 {
      NoTwinsAt(segs, i - 1);
      assert taken[i - 1] == segs[i - 1];
    }
    if i + 1 < |segs| {
      NoTwinsAt(segs, i);
    }
    if h.size > request + TagsSize {
      assert taken[i + 1] == TakenFrom(h, request)[1];
      assert taken[i + 2..] == segs[i + 1..];
      assert MergeTo(taken, i) == i + 1;
      assert Merged(taken, i) == h;
    } else {
      assert i + 1 < |segs| ==> taken[i + 1] == segs[i + 1];
      assert Merged(taken, i) == h;
      assert taken[i + 1..] == segs[i + 1..];
    }
    assert taken[..i] == segs[..i];
    assert segs == segs[..i] + [h] + segs[i + 1..];
  }

  /** An unaligned allocation followed at once by the release of its result leaves the heap as it was, but for the
      pages it grew by. */
  lemma FreeUndoesAlloc(segs: seq<Segment>, request: nat, grownBy: nat, i: nat, gap: nat, r: Outcome,
                        segs': seq<Segment>, lo: nat, hi: nat)
    requires Tiles(segs, lo, hi) && NoTwins(segs) && segs != []
    requires Allocated(segs, request, 0, grownBy, i, gap, r, segs') && r.Given?
    ensures i < |segs'| && segs'[i].used && UserAddr(segs'[i]) == r.ptr
    ensures Freed(segs', i) == Grown(segs, grownBy)
  {
    var grown := Grown(segs, grownBy);
    GrownKeeps(segs, grownBy, lo, hi);
    UnalignedIsBestFit(grown, i, gap, request);
    FreeUndoesTake(grown, i, request, lo, hi + PageBytes(grownBy));
  }

  lemma {:induction false} GrownKeeps(segs: seq<Segment>, grownBy: nat, lo: nat, hi: nat)
    requires Tiles(segs, lo, hi) && NoTwins(segs) && segs != []
    ensures var grown := Grown(segs, grownBy);
            grown != [] && Tiles(grown, lo, hi + PageBytes(grownBy)) && NoTwins(grown)
    decreases grownBy
  {
    if grownBy > 0 {
      ExtendedKeeps(segs, lo, hi);
      GrownKeeps(Extended(segs), grownBy - 1, lo, hi + PageSize);
    }
  }

  lemma GrownBlocks(segs: seq<Segment>, grownBy: nat)
    requires segs != []
    ensures BlocksKept(segs, Grown(segs, grownBy))
  {
    var grown, n := Grown(segs, grownBy), |segs| - 1;
    if grownBy > 0 {
      GrowthIsTrailing(segs, grownBy);
    }
    assert segs == segs[..n] + [segs[n]];
    forall s | s in segs && s.used ensures Kept(s, grown) {
      KeptAs(s, grown, s);
    }
  }

  lemma {:induction false} GrownLive(segs: seq<Segment>, grownBy: nat)
    requires segs != []
    ensures Live(Grown(segs, grownBy)) == Live(segs)
    decreases grownBy
  {
    if grownBy > 0 {
      ExtendedLive(segs);
      GrownLive(Extended(segs), grownBy - 1);
    }
  }

  lemma ExtendedLive(segs: seq<Segment>)
    requires segs != []
    ensures Live(Extended(segs)) == Live(segs)
  {
    var n := |segs| - 1;
    assert segs == segs[..n] + [segs[n]];
  }

  lemma BlocksKeptThrough(a: seq<Segment>, b: seq<Segment>, c: seq<Segment>)
    requires BlocksKept(a, b) && BlocksKept(b, c)
    ensures BlocksKept(a, c)
  {
    forall s | s in a && s.used ensures Kept(s, c) {
      var j :| 0 <= j < |b| && Covers(b[j], s);
      assert b[j] in b;
      var k :| 0 <= k < |c| && Covers(c[k], b[j]);
      assert Covers(c[k], s);
    }
  }

  /** All that growth adds lies in the trailing hole. */
  lemma {:induction false} GrowthIsTrailing(segs: seq<Segment>, pages: nat)
    requires segs != [] && pages > 0
    ensures var last := segs[|segs| - 1];
            Grown(segs, pages) ==
              if last.used then segs + [Segment(End(last), PageBytes(pages) - TagsSize, false)]
              else segs[..|segs| - 1] + [last.(size := last.size + PageBytes(pages))]
    decreases pages
  {
    var ext := Extended(segs);
    if pages > 1 {
      GrowthIsTrailing(ext, pages - 1);
      assert !ext[|ext| - 1].used;
      assert ext[..|ext| - 1] == if segs[|segs| - 1].used then segs else segs[..|segs| - 1];
    } else {
      assert Grown(segs, 1) == Grown(ext, 0) == ext;
    }
  }

  lemma ShiftedLive(segs: seq<Segment>, i: nat, gap: nat)
    requires i < |segs| && !segs[i].used && gap <= segs[i].size && (gap > 0 ==> i > 0)
    ensures Live(Shifted(segs, i, gap)) == Live(segs)
  {
    if gap > 0 {
      var p, h := segs[i - 1], segs[i];
      var pair := PadPair(p, h, gap);
      assert segs == segs[..i - 1] + [p, h] + segs[i + 1..];
      assert pair[0].used == p.used && UserAddr(pair[0]) == UserAddr(p) && !pair[1].used;
      assert Live([p, h]) == Live(pair);
      LiveJoin(segs[..i - 1] + [p, h], segs[i + 1..]);
      LiveJoin(segs[..i - 1] + pair, segs[i + 1..]);
      LiveJoin(segs[..i - 1], [p, h]);
      LiveJoin(segs[..i - 1], pair);
    }
  }

  lemma LiveJoin(a: seq<Segment>, b: seq<Segment>)
    ensures Live(a + b) == Live(a) + Live(b)
  {}

  lemma TakenLive(segs: seq<Segment>, i: nat, request: nat)
    requires i < |segs| && !segs[i].used
    ensures Live(Taken(segs, i, request)) == Live(segs) + {UserAddr(segs[i])}
  {
    var h, taken := segs[i], TakenFrom(segs[i], request);
    assert segs == segs[..i] + [h] + segs[i + 1..];
    assert Live([h]) == {} && Live(taken) == {UserAddr(h)} by {
      assert taken[0] in taken;
    }
    LiveJoin(segs[..i] + [h], segs[i + 1..]);
    LiveJoin(segs[..i] + taken, segs[i + 1..]);
    LiveJoin(segs[..i], [h]);
    LiveJoin(segs[..i], taken);
  }

  lemma NewAddress(segs: seq<Segment>, i: nat, lo: nat, hi: nat)
    requires Tiles(segs, lo, hi) && i < |segs| && !segs[i].used
    ensures UserAddr(segs[i]) !in Live(segs)
  {
    forall s | s in segs && s.used ensures UserAddr(s) != UserAddr(segs[i]) {
      LiveBlocksApart(segs, lo, hi, s, segs[i]);
    }
  }

  /** What a completed allocation promises of the new block: it has at least the requested size and little more, at an
      address not live before; no other address becomes live and none is lost. */
  lemma AllocationIsSound(segs: seq<Segment>, request: nat, alignment: nat, grownBy: nat, i: nat, gap: nat,
                          r: Outcome, segs': seq<Segment>, lo: nat, hi: nat)
    requires Tiles(segs, lo, hi) && NoTwins(segs) && segs != []
    requires Allocated(segs, request, alignment, grownBy, i, gap, r, segs') && r.Given?
    ensures segs' != [] && Tiles(segs', lo, hi + PageBytes(grownBy)) && NoTwins(segs')
    ensures r.ptr !in Live(segs) && Live(segs') == Live(segs) + {r.ptr}
    ensures i < |segs'| && segs'[i].used && UserAddr(segs'[i]) == r.ptr
    ensures request <= segs'[i].size <= request + TagsSize
  {
    var top, grown := hi + PageBytes(grownBy), Grown(segs, grownBy);
    GrownKeeps(segs, grownBy, lo, hi);
    ServedIsSound(grown, i, gap, request, lo, top);
    GrownLive(segs, grownBy);
  }

  lemma ServedIsSound(segs: seq<Segment>, i: nat, gap: nat, request: nat, lo: nat, hi: nat)
    requires Tiles(segs, lo, hi) && NoTwins(segs) && i < |segs| && !segs[i].used && gap + request <= segs[i].size
    requires gap > 0 ==> i > 0
    ensures var out := Served(segs, i, gap, request);
            && out != [] && Tiles(out, lo, hi) && NoTwins(out)
            && UserAddr(segs[i]) + gap !in Live(segs) && Live(out) == Live(segs) + {UserAddr(segs[i]) + gap}
            && i < |out| && out[i].used && UserAddr(out[i]) == UserAddr(segs[i]) + gap
            && request <= out[i].size <= request + TagsSize
  {
    var shifted, out := Shifted(segs, i, gap), Served(segs, i, gap, request);
    assert UserAddr(segs[i]) + gap !in Live(segs) && Live(out) == Live(segs) + {UserAddr(segs[i]) + gap}
           && Tiles(out, lo, hi) && NoTwins(out) by {
      ServedLive(segs, i, gap, request, lo, hi);
    }
    assert |out| > i && out[i].used && UserAddr(out[i]) == UserAddr(segs[i]) + gap
           && request <= out[i].size <= request + TagsSize by {
      ServedIs(segs, i, gap, request);
    }
  }

  lemma ServedLive(segs: seq<Segment>, i: nat, gap: nat, request: nat, lo: nat, hi: nat)
    requires Tiles(segs, lo, hi) && NoTwins(segs) && i < |segs| && !segs[i].used && gap + request <= segs[i].size
    requires gap > 0 ==> i > 0
    ensures var out := Served(segs, i, gap, request);
            && Tiles(out, lo, hi) && NoTwins(out)
            && UserAddr(segs[i]) + gap !in Live(segs) && Live(out) == Live(segs) + {UserAddr(segs[i]) + gap}
  {
    var shifted := Shifted(segs, i, gap);
    ShiftedIs(segs, i, gap);
    ShiftedIsRun(segs, i, gap, lo, hi);
    ShiftedLive(segs, i, gap);
    TakenKeeps(shifted, i, request, lo, hi);
    TakenLive(shifted, i, request);
    NewAddress(shifted, i, lo, hi);
  }

  lemma AllocationIsAligned(segs: seq<Segment>, request: nat, alignment: nat, grownBy: nat, i: nat, gap: nat,
                            r: Outcome, segs': seq<Segment>)
    requires segs != [] && Allocated(segs, request, alignment, grownBy, i, gap, r, segs') && r.Given?
    requires PowerOfTwo(alignment)
    ensures alignment > 0 && r.ptr % alignment == 0
  {
    AlignIsAligned(UserAddr(Grown(segs, grownBy)[i]), alignment);
  }

  /** ... and of the others: every block live before is live still, where it was and no smaller. */
  lemma AllocationKeepsBlocks(segs: seq<Segment>, request: nat, alignment: nat, grownBy: nat, i: nat, gap: nat,
                              r: Outcome, segs': seq<Segment>)
    requires segs != [] && Allocated(segs, request, alignment, grownBy, i, gap, r, segs') && r.Given?
    ensures BlocksKept(segs, segs')
  {
    var grown := Grown(segs, grownBy);
    var shifted := Shifted(grown, i, gap);
    GrownBlocks(segs, grownBy);
    ShiftedBlocks(grown, i, gap);
    TakenBlocks(shifted, i, request);
    BlocksKeptThrough(segs, grown, shifted);
    BlocksKeptThrough(segs, shifted, segs');
  }

  lemma ShiftedBlocks(segs: seq<Segment>, i: nat, gap: nat)
    requires i < |segs| && !segs[i].used && gap <= segs[i].size && (gap > 0 ==> i > 0)
    ensures BlocksKept(segs, Shifted(segs, i, gap))
  {
    if gap > 0 {
      PaddedBlocks(segs, i, gap);
    } else {
      SameBlocks(segs);
    }
  }

  lemma ShiftedIsRun(segs: seq<Segment>, i: nat, gap: nat, lo: nat, hi: nat)
    requires Tiles(segs, lo, hi) && NoTwins(segs) && i < |segs| && !segs[i].used
    requires gap <= segs[i].size && (gap > 0 ==> i > 0)
    ensures var out, h := Shifted(segs, i, gap), segs[i];
            && Tiles(out, lo, hi) && NoTwins(out) && |out| == |segs|
            && out[i] == Segment(h.addr + gap, h.size - gap, false)
  {
    if gap > 0 {
      PaddedKeeps(segs, i, gap, lo, hi);
    }
  }

  /** What a release promises: the block is gone, and every other block is exactly as it was. */
  lemma ReleaseIsSound(segs: seq<Segment>, i: nat, lo: nat, hi: nat)
    requires Tiles(segs, lo, hi) && NoTwins(segs) && i < |segs| && segs[i].used
    ensures var out := Freed(segs, i);
            && Tiles(out, lo, hi) && NoTwins(out)
            && Live(out) == Live(segs) - {UserAddr(segs[i])}
            && forall s: Segment :: s.used ==> (s in out <==> s in segs && s != segs[i])
  {
    var out := Freed(segs, i);
    FreedKeeps(segs, i, lo, hi);
    forall s: Segment | s.used ensures s in out <==> s in segs && s != segs[i] {
      if s in segs && s != segs[i] {
        OthersOutside(segs, i, s);
      }
      if s in out {
        assert s in segs[..MergeFrom(segs, i)] || s in segs[MergeTo(segs, i) + 1..];
        RestIsApart(segs, i, s, lo, hi);
      }
    }
    forall s | s in segs && s.used && s != segs[i] ensures UserAddr(s) != UserAddr(segs[i]) {
      LiveBlocksApart(segs, lo, hi, s, segs[i]);
    }
  }

  lemma RestIsApart(segs: seq<Segment>, i: nat, s: Segment, lo: nat, hi: nat)
    requires Tiles(segs, lo, hi) && i < |segs|
    requires s in segs[..MergeFrom(segs, i)] || s in segs[MergeTo(segs, i) + 1..]
    ensures s in segs && s != segs[i]
  {
    var from, to := MergeFrom(segs, i), MergeTo(segs, i);
    if s in segs[..from] {
      var k :| 0 <= k < from && segs[k] == s;
      InOrder(segs, k, i, lo, hi);
    } else {
      var k :| 0 <= k < |segs| - to - 1 && segs[to + 1..][k] == s;
      InOrder(segs, i, to + 1 + k, lo, hi);
    }
  }
}

/** The kernel heap: headers and footers written in place, with the index of holes beside them. */
module KallocHeap {
  import opened Alignment
  import opened HoleSearch
  import opened HoleTree
  import opened KallocAvl
  import opened Ram
  import opened Segments
  import opened SegmentOps
  import opened SegmentTags
  import opened Wrappers

  /** What an allocation comes to: a pointer, or the system halted by a failed assertion. */
  datatype Outcome = Halted | Given(ptr: nat)

  const AvlPages := 16

  /** How the holes change when hole `i` is taken. */
  lemma TakenIndex(segs: seq<Segment>, i: nat, request: nat, lo: nat, hi: nat)
    requires Tiles(segs, lo, hi) && NoTwins(segs) && i < |segs| && !segs[i].used && request <= segs[i].size
    ensures var h, others := segs[i], HolesOf(segs) - {HoleOf(segs[i])};
            if h.size > request + TagsSize then
              var rest := Hole(h.size - request - TagsSize, h.addr + TagsSize + request + HeaderSize);
              rest !in others && HolesOf(Taken(segs, i, request)) == others + {rest}
            else HolesOf(Taken(segs, i, request)) == others
  {
    TakenKeeps(segs, i, request, lo, hi);
    var taken := TakenFrom(segs[i], request);
    HolesOfPair(taken[0], if |taken| == 2 then taken[1] else taken[0]);
  }

  /** How the holes change when the run is extended behind its last segment. */
  lemma ExtendedIndex(segs: seq<Segment>, last: nat, lastSize: nat, lastUsed: bool, lo: nat, hi: nat)
    requires Tiles(segs, lo, hi) && NoTwins(segs) && segs != []
    requires segs[|segs| - 1] == Segment(last, lastSize, lastUsed)
    ensures lastUsed ==>
              var x := Hole(PageSize - TagsSize, last + TagsSize + lastSize + HeaderSize);
              x !in HolesOf(segs) && HolesOf(Extended(segs)) == HolesOf(segs) + {x}
    ensures !lastUsed ==>
              var h, x := Hole(lastSize, last + HeaderSize), Hole(lastSize + PageSize, last + HeaderSize);
              h in HolesOf(segs) && x !in HolesOf(segs) - {h} && HolesOf(Extended(segs)) == HolesOf(segs) - {h} + {x}
  {
    ExtendedKeeps(segs, lo, hi);
    InHolesOf(segs, Hole(lastSize, last + HeaderSize));
    if lastUsed {
      assert HolesOf(segs) - HoleSet(segs[|segs| - 1]) == HolesOf(segs);
    }
  }

  /** Brings the index up to date after the run was extended behind its last segment. */
  method IndexExtended(avl: Avl, last: nat, lastSize: nat, lastUsed: bool, ghost segs: seq<Segment>, ghost lo: nat,
                       ghost hi: nat)
    requires Tiles(segs, lo, hi) && NoTwins(segs) && segs != []
    requires segs[|segs| - 1] == Segment(last, lastSize, lastUsed)
    requires avl.Valid() && avl.Index() == HolesOf(segs) && (lastUsed ==> avl.spare != [])
    modifies avl, avl.pool
    ensures avl.Valid() && avl.Index() == HolesOf(Extended(segs))
    ensures !lastUsed ==> |avl.spare| == old(|avl.spare|)
  {
    ExtendedIndex(segs, last, lastSize, lastUsed, lo, hi);
    if lastUsed {
      avl.Insert(PageSize - TagsSize, last + TagsSize + lastSize + HeaderSize);
    } else {
      avl.Remove(lastSize, last + HeaderSize);
      avl.Insert(lastSize + PageSize, last + HeaderSize);
    }
  }

  /** Brings the index up to date after a block was released. */
  method IndexFreed(avl: Avl, before: Option<Hole>, after: Option<Hole>, hole: Hole, ghost segs: seq<Segment>,
                    ghost i: nat, ghost lo: nat, ghost hi: nat)
    requires Tiles(segs, lo, hi) && NoTwins(segs) && i < |segs| && segs[i].used
    requires before == if MergeFrom(segs, i) < i then Some(HoleOf(segs[i - 1])) else None
    requires after == if MergeTo(segs, i) > i then Some(HoleOf(segs[i + 1])) else None
    requires hole == HoleOf(Merged(segs, i))
    requires avl.Valid() && avl.Index() == HolesOf(segs)
    requires before.Some? || after.Some? || avl.spare != []
    modifies avl, avl.pool
    ensures avl.Valid() && avl.Index() == HolesOf(Freed(segs, i))
  {
    FreedIndex(segs, i, lo, hi);
    if before.Some? {
      avl.Remove(before.value.size, before.value.addr);
    }
    if after.Some? {
      avl.Remove(after.value.size, after.value.addr);
    }
    assert avl.Index() == HolesOf(segs) - HoleBefore(segs, i) - HoleAfter(segs, i);
    avl.Insert(hole.size, hole.addr);
  }

  /** Hole `i` serves the request `gap` bytes after its start, where it is aligned, and no hole sure to fit comes
      earlier in the index. */
  ghost predicate Chosen(segs: seq<Segment>, i: nat, gap: nat, request: nat, alignment: nat) {
    && i < |segs| && !segs[i].used
    && UserAddr(segs[i]) + gap == Align(UserAddr(segs[i]), alignment)
    && gap + request <= segs[i].size
    && forall h :: h in HolesOf(segs) && Roomy(h, request, alignment) ==>
         HoleOf(segs[i]) == h || Less(HoleOf(segs[i]), h)
  }

  /** The hole lies at the start of the heap, which is at `lo`, and an aligned block would have to start later. */
  predicate Refused(hole: Hole, lo: nat, alignment: nat) {
    hole.addr == lo + HeaderSize && Align(hole.addr, alignment) != hole.addr
  }

  /** The search of this index for the request ends at hole `i`, and the request is refused exactly if that hole is at
      the start of the heap and not aligned. */
  ghost predicate Decided(index: Tree, segs: seq<Segment>, i: nat, request: nat, alignment: nat, lo: nat, r: Outcome) {
    && i < |segs| && Sound(index) && Holes(index) == HolesOf(segs)
    && Search(index, request, alignment) == Some(HoleOf(segs[i]))
    && (r.Halted? <==> Refused(HoleOf(segs[i]), lo, alignment))
  }

  /** Being the first segment shows in the address. */
  lemma RefusedIsFirst(segs: seq<Segment>, i: nat, gap: nat, alignment: nat, lo: nat, hi: nat)
    requires Tiles(segs, lo, hi) && i < |segs| && UserAddr(segs[i]) + gap == Align(UserAddr(segs[i]), alignment)
    ensures i == 0 && gap > 0 <==> Refused(HoleOf(segs[i]), lo, alignment)
  {
    TileAt(segs, i, lo, hi);
  }

  /** How an allocation turns the run `segs` into `segs'`: the heap grows by `grownBy` pages, then the chosen hole
      serves; it halts instead when that hole is the first segment and would have to start later. */
  ghost predicate Allocated(segs: seq<Segment>, request: nat, alignment: nat, grownBy: nat, i: nat, gap: nat,
                            r: Outcome, segs': seq<Segment>)
    requires segs != []
  {
    var grown := Grown(segs, grownBy);
    && Chosen(grown, i, gap, request, alignment)
    && (r.Halted? <==> i == 0 && gap > 0)
    && (r.Given? ==> r.ptr == UserAddr(grown[i]) + gap && segs' == Served(grown, i, gap, request))
  }

  /** No hole has room for the request wherever it starts. */
  ghost predicate NoneRoomy(segs: seq<Segment>, request: nat, alignment: nat) {
    forall h :: h in HolesOf(segs) ==> h.size < request + (if alignment == 0 then 0 else alignment - 1)
  }

  /** Fewer pages of growth would not surely have done. */
  ghost predicate NeedsGrowth(segs: seq<Segment>, request: nat, alignment: nat, grownBy: nat)
    requires segs != []
  {
    forall n: nat :: n < grownBy ==> NoneRoomy(Grown(segs, n), request, alignment)
  }

  /** No more pages than request, alignment and tags take together. */
  predicate LittleGrowth(request: nat, alignment: nat, grownBy: nat) {
    grownBy > 0 ==> 4096 * (grownBy - 1) < request + 20 + (if alignment == 0 then 0 else alignment - 1)
  }

  lemma GrowsLittle(segs: seq<Segment>, request: nat, alignment: nat)
    requires segs != []
    ensures forall n: nat :: n <= PagesFor(ShortBy(segs, request, alignment)) ==> LittleGrowth(request, alignment, n)
  {
    assert ShortBy(segs, request, alignment) <= request + 20 + (if alignment == 0 then 0 else alignment - 1);
  }

  lemma NeedsOneMore(segs: seq<Segment>, request: nat, alignment: nat, n: nat, grownBy: nat)
    requires segs != [] && grownBy == n + 1 && NoneRoomy(segs, request, alignment)
    requires NeedsGrowth(Extended(segs), request, alignment, n)
    ensures NeedsGrowth(segs, request, alignment, grownBy)
  {
    forall k: nat | k < grownBy ensures NoneRoomy(Grown(segs, k), request, alignment) {
      if k > 0 {
        assert Grown(segs, k) == Grown(Extended(segs), k - 1);
      }
    }
  }

  /** What the search of an index of the run finds. */
  lemma ChosenBySearch(index: Tree, segs: seq<Segment>, found: Hole, request: nat, alignment: nat, lo: nat, hi: nat)
    returns (i: nat, gap: nat)
    requires Sound(index) && Holes(index) == HolesOf(segs) && Tiles(segs, lo, hi)
    requires Search(index, request, alignment) == Some(found)
    ensures Chosen(segs, i, gap, request, alignment) && found == HoleOf(segs[i])
    ensures gap == Align(found.addr, alignment) - found.addr
    ensures i == 0 && gap > 0 <==> Refused(found, lo, alignment)
  {
    SearchFinds(index, request, alignment);
    i := SegmentOfHole(segs, found);
    AlignBounds(found.addr, alignment);
    gap := Align(found.addr, alignment) - found.addr;
    RefusedIsFirst(segs, i, gap, alignment, lo, hi);
  }

  /** An allocation after one page of growth is one with a page more. */
  lemma GrownOnceMore(segs: seq<Segment>, request: nat, alignment: nat, n: nat, grownBy: nat, i: nat, gap: nat,
                      r: Outcome, segs': seq<Segment>, index: Tree, lo: nat)
    requires segs != [] && grownBy == n + 1
    requires Allocated(Extended(segs), request, alignment, n, i, gap, r, segs')
    requires Decided(index, Grown(Extended(segs), n), i, request, alignment, lo, r)
    ensures Allocated(segs, request, alignment, grownBy, i, gap, r, segs')
    ensures Decided(index, Grown(segs, grownBy), i, request, alignment, lo, r)
  {
    assert Grown(segs, grownBy) == Grown(Extended(segs), n);
  }

  lemma HoleIsIndexed(m: Bytes, segs: seq<Segment>, i: nat, lo: nat, hi: nat)
    requires Sane(m, segs, lo, hi) && i < |segs| && !segs[i].used
    ensures Tagged(m, segs[i]) && HoleOf(segs[i]) in HolesOf(segs)
  {
    SaneAt(m, segs, i, lo, hi);
    InHolesOf(segs, HoleOf(segs[i]));
  }

  /** The size in the header of a hole, which says that it is one. */
  method ReadHole(ram: array<int>, header: nat, ghost s: Segment) returns (size: nat)
    requires Tagged(ram[..], s) && header == s.addr && !s.used
    ensures size == s.size
  {
    assert Word(ram, header + 8) == 0;
    size := Word(ram, header + 4);
  }

  /** Behind segment `i` comes another one, or the end of the heap. */
  lemma NextOrEnd(m: Bytes, segs: seq<Segment>, i: nat, lo: nat, hi: nat)
    requires Sane(m, segs, lo, hi) && i < |segs|
    ensures End(segs[i]) == hi <==> i + 1 == |segs|
    ensures End(segs[i]) <= hi
  {
    SaneAt(m, segs, i, lo, hi);
  }

  /** Changes that end with segment `i` leave the tags of the next one alone. */
  lemma NextIsIntact(m: Bytes, m': Bytes, segs: seq<Segment>, i: nat, first: nat, lo: nat, hi: nat)
    requires Sane(m, segs, lo, hi) && i + 1 < |segs| && Changed(m, m', first, End(segs[i]))
    ensures Tagged(m', segs[i + 1]) && segs[i + 1].addr == End(segs[i]) && End(segs[i + 1]) <= hi
  {
    SaneAt(m, segs, i, lo, hi);
    SaneAt(m, segs, i + 1, lo, hi);
    TagsAgree(m, m', segs[i + 1]);
  }

  class Heap {
    const ram: array<int>
    const initialAddr: nat
    const avl: Avl
    var size: nat
    ghost const firstPage: nat
    ghost var pages: nat
    ghost var segs: seq<Segment>
    ghost var mapped: set<nat>

    /** The segments tile the heap, carry their tags, and no two holes touch. */
    ghost predicate Run()
      reads this, ram
    {
      initialAddr + size <= ram.Length <= WordLimit && Sane(ram[..], segs, initialAddr, initialAddr + size)
    }

    /** Heap and index are whole pages, and exactly those pages are mapped. */
    ghost predicate Mapped()
      reads this
    {
      && initialAddr == PageBytes(firstPage) && size == PageBytes(pages) && AvlPages <= firstPage
      && forall p: nat :: p in mapped <==> firstPage - AvlPages <= p < firstPage + pages
    }

    ghost predicate Valid()
      reads this, ram, avl, avl.pool
    {
      Run() && Mapped() && avl.Valid() && avl.Index() == HolesOf(segs)
    }

    /** Maps the pages of index and heap, and makes the heap one hole. */
    constructor (ram: array<int>, addr: nat, initialPages: nat)
      requires addr % 4096 == 0 && PageBytes(initialPages) >= TagsSize
      requires addr + PageBytes(AvlPages + initialPages) <= ram.Length <= WordLimit
      modifies ram
      ensures Valid() && this.ram == ram && fresh(avl) && fresh(avl.pool)
      ensures initialAddr == addr + PageBytes(AvlPages) && size == PageBytes(initialPages)
      ensures segs == [Segment(initialAddr, size - TagsSize, false)] && avl.pool.Length == 65536 / 20
    {
      this.ram := ram;
      initialAddr := addr + PageBytes(AvlPages);
      size := PageBytes(initialPages);
      firstPage, pages := addr / 4096 + AvlPages, initialPages;
      var cells := new Cell[PageBytes(AvlPages) / 20](_ => Cell(Null, Null, 0, 0, 0));
      avl := new Avl(cells);
      mapped := {};
      segs := [];
      new;
      MapPages(addr / 4096, AvlPages + initialPages);
      Start();
    }

    /** Makes the whole heap one hole, and indexes it. */
    method Start()
      requires Mapped() && TagsSize <= size && initialAddr + size <= ram.Length <= WordLimit
      requires avl.Valid() && avl.Index() == {} && avl.spare != []
      modifies this`segs, ram, avl, avl.pool
      ensures Valid() && segs == [Segment(initialAddr, size - TagsSize, false)]
    {
      Format();
      assert HolesOf(segs[1..]) == {};
      avl.Insert(size - TagsSize, initialAddr + HeaderSize);
    }

    /** Maps `count` pages from `first` on. */
    method MapPages(first: nat, count: nat)
      requires mapped == {} && PageBytes(first + count) <= ram.Length
      modifies this`mapped, ram
      ensures forall p: nat :: p in mapped <==> first <= p < first + count
    {
      for i := 0 to count
        invariant forall p: nat :: p in mapped <==> first <= p < first + i
      {
        MapPage(first + i);
      }
    }

    /** Writes the tags of a single hole over the whole heap. */
    method Format()
      requires TagsSize <= size && initialAddr + size <= ram.Length <= WordLimit
      modifies this`segs, ram
      ensures Run() && segs == [Segment(initialAddr, size - TagsSize, false)]
    {
      ghost var s := Segment(initialAddr, size - TagsSize, false);
      segs := [s];
      WriteFooter(ram, initialAddr + size - FooterSize, initialAddr);
      ghost var m := ram[..];
      WriteHeader(ram, initialAddr, size - TagsSize, false);
      FooterAgrees(m, ram[..], initialAddr + size - FooterSize, initialAddr);
      assert FooterAddr(s) == initialAddr + size - FooterSize;
      assert Tiles([], End(s), initialAddr + size);
    }

    /** Backs a page not mapped before with a frame, and probes its first byte. */
    method MapPage(page: nat)
      requires page !in mapped && PageBytes(page + 1) <= ram.Length
      modifies this`mapped, ram
      ensures mapped == old(mapped) + {page}
      ensures Changed(old(ram[..]), ram[..], PageBytes(page), PageBytes(page) + 1)
    {
      mapped := mapped + {page};
      ram[PageBytes(page)] := 0xAB;
    }

    /** Adds a page at the end of the heap, already mapped, in memory. Tells the last segment as it was. */
    method ExtendSegments() returns (last: nat, lastSize: nat, lastUsed: bool)
      requires Run() && initialAddr + size + PageSize <= ram.Length
      modifies this`size, this`segs, ram
      ensures Run() && size == old(size) + PageSize && segs == Extended(old(segs))
      ensures Segment(last, lastSize, lastUsed) == old(segs)[|old(segs)| - 1]
      ensures PayloadsKept(old(ram[..]), ram[..], old(segs))
    {
      ghost var before, m, top := segs, ram[..], initialAddr + size;
      LastSegment(m, segs, initialAddr, top);
      var lastFooter := initialAddr + size - FooterSize;
      last := Word(ram, lastFooter + 4);
      lastSize, lastUsed := Word(ram, last + 4), Word(ram, last + 8) != 0;
      size, segs := size + PageSize, Extended(segs);
      if lastUsed {
        AppendTags(ram, lastFooter + FooterSize, segs[|segs| - 1]);
      } else {
        EnlargeBlock(ram, last, lastSize + PageSize, initialAddr + size - FooterSize,
                     before[|before| - 1], segs[|segs| - 1]);
      }
      ExtendedIsSane(m, ram[..], before, initialAddr, top);
    }

    /** Maps the page above the heap, whose contents the heap does not use yet. */
    method MapNextPage()
      requires Run() && Mapped() && initialAddr + size + PageSize <= ram.Length
      modifies this`mapped, ram
      ensures Run() && PayloadsKept(old(ram[..]), ram[..], segs)
      ensures forall p: nat :: p in mapped <==> firstPage - AvlPages <= p < firstPage + pages + 1
    {
      ghost var m := ram[..];
      MapPage((initialAddr + size) / 4096);
      AboveIsSane(m, ram[..], segs, initialAddr, initialAddr + size);
    }

    method GrowSegments() returns (last: nat, lastSize: nat, lastUsed: bool)
      requires Run() && Mapped() && initialAddr + size + PageSize <= ram.Length
      modifies this`size, this`pages, this`segs, this`mapped, ram
      ensures Run() && Mapped() && size == old(size) + PageSize && segs == Extended(old(segs))
      ensures Segment(last, lastSize, lastUsed) == old(segs)[|old(segs)| - 1]
      ensures PayloadsKept(old(ram[..]), ram[..], old(segs))
    {
      ghost var before, m := segs, ram[..];
      MapNextPage();
      ghost var m1 := ram[..];
      last, lastSize, lastUsed := ExtendSegments();
      pages := pages + 1;
      SameBlocks(before);
      PayloadsThrough(m, m1, ram[..], before, before);
    }

    /** Grows the heap by a page: the last hole is widened, or a new one follows the last block. */
    method Grow()
      requires Valid() && initialAddr + size + PageSize <= ram.Length
      requires segs[|segs| - 1].used ==> avl.spare != []
      modifies this`size, this`pages, this`segs, this`mapped, ram, avl, avl.pool
      ensures Valid() && size == old(size) + PageSize && segs == Extended(old(segs))
      ensures PayloadsKept(old(ram[..]), ram[..], old(segs))
    {
      ghost var before, top := segs, initialAddr + size;
      var last, lastSize, lastUsed := GrowSegments();
      IndexExtended(avl, last, lastSize, lastUsed, before, initialAddr, top);
    }

    /** Moves the start of hole `i` up by `gap` bytes, which the block before it takes over. */
    method PadPrevious(hole: nat, holeSize: nat, gap: nat, ghost i: nat)
      requires Run()
      requires 0 < i < |segs| && segs[i] == Segment(hole, holeSize, false) && 0 < gap <= holeSize
      modifies this`segs, ram
      ensures Run() && segs == Padded(old(segs), i, gap)
      ensures PayloadsKept(old(ram[..]), ram[..], old(segs))
    {
      ghost var m, top := ram[..], initialAddr + size;
      SaneAt(m, segs, i, initialAddr, top);
      PadTags(ram, hole, holeSize, gap, segs[i - 1], segs[i]);
      PaddedIsSane(m, ram[..], segs, i, gap, initialAddr, top);
      segs := Padded(segs, i, gap);
    }

    /** Makes hole `i` start `gap` bytes later, in memory. */
    method MoveHole(hole: nat, holeSize: nat, gap: nat, ghost i: nat)
      requires Run() && i < |segs| && segs[i] == Segment(hole, holeSize, false) && gap <= holeSize
      requires gap > 0 ==> i > 0
      modifies this`segs, ram
      ensures Run() && segs == Shifted(old(segs), i, gap)
      ensures PayloadsKept(old(ram[..]), ram[..], old(segs))
    {
      if gap > 0 {
        PadPrevious(hole, holeSize, gap, i);
      } else {
        RestateHeader(hole, holeSize, i);
      }
    }

    /** Takes hole `i` out of the index. */
    method Unindex(user: nat, ghost i: nat) returns (holeSize: nat)
      requires Valid() && i < |segs| && !segs[i].used && user == UserAddr(segs[i])
      modifies avl, avl.pool
      ensures Run() && Mapped() && segs[i] == Segment(user - HeaderSize, holeSize, false)
      ensures avl.Valid() && avl.Index() == HolesOf(segs) - {HoleOf(segs[i])} && avl.spare != []
    {
      HoleIsIndexed(ram[..], segs, i, initialAddr, initialAddr + size);
      holeSize := ReadHole(ram, user - HeaderSize, segs[i]);
      avl.Remove(holeSize, user);
    }

    /** Gives hole `i`, taken out of the index before, to a request, `gap` bytes after its start. */
    method PlaceBlock(hole: nat, holeSize: nat, gap: nat, request: nat, ghost i: nat)
      requires Run() && Mapped() && i < |segs| && segs[i] == Segment(hole, holeSize, false)
      requires gap + request <= holeSize && (gap > 0 ==> i > 0)
      requires avl.Valid() && avl.Index() == HolesOf(segs) - {HoleOf(segs[i])} && avl.spare != []
      modifies this`segs, ram, avl, avl.pool
      ensures Valid() && segs == Served(old(segs), i, gap, request)
      ensures PayloadsKept(old(ram[..]), ram[..], old(segs))
    {
      ghost var before, m := segs, ram[..];
      ShiftedKeeps(m, segs, i, gap, initialAddr, initialAddr + size);
      MoveHole(hole, holeSize, gap, i);
      ghost var m1 := ram[..];
      TakeHole(hole + gap, holeSize - gap, request, i);
      PayloadsThrough(m, m1, ram[..], before, Shifted(before, i, gap));
    }

    /** Serves a request from hole `i`, `gap` bytes after its start. Halts when the hole would have to start later but
        has no block before it. */
    method ServeFrom(user: nat, gap: nat, request: nat, ghost i: nat) returns (r: Outcome)
      requires Valid() && i < |segs| && !segs[i].used && user == UserAddr(segs[i]) && gap + request <= segs[i].size
      modifies this`segs, ram, avl, avl.pool
      ensures r.Halted? <==> i == 0 && gap > 0
      ensures r.Given? ==> Valid() && r.ptr == user + gap && segs == Served(old(segs), i, gap, request)
      ensures r.Given? ==> PayloadsKept(old(ram[..]), ram[..], old(segs))
    {
      SaneAt(ram[..], segs, i, initialAddr, initialAddr + size);
      var holeSize := Unindex(user, i);
      if gap > 0 && user - HeaderSize == initialAddr {
        return Halted;
      }
      PlaceBlock(user - HeaderSize, holeSize, gap, request, i);
      r := Given(user + gap);
    }

    /** Writes the header of hole `i` again, as it is. */
    method RestateHeader(hole: nat, holeSize: nat, ghost i: nat)
      requires Run() && i < |segs| && segs[i] == Segment(hole, holeSize, false)
      modifies ram
      ensures Run() && PayloadsKept(old(ram[..]), ram[..], segs)
    {
      ghost var m, top := ram[..], initialAddr + size;
      SaneAt(m, segs, i, initialAddr, top);
      WriteHeader(ram, hole, holeSize, false);
      FooterAgrees(m, ram[..], FooterAddr(segs[i]), hole);
      RestatedIsSane(m, ram[..], segs, i, initialAddr, top);
    }

    /** Marks hole `i` used as far as the request needs it, in memory. */
    method TakeSegment(hole: nat, holeSize: nat, request: nat, ghost i: nat)
      requires Run() && i < |segs| && segs[i] == Segment(hole, holeSize, false) && request <= holeSize
      modifies this`segs, ram
      ensures Run() && segs == Taken(old(segs), i, request)
      ensures PayloadsKept(old(ram[..]), ram[..], old(segs))
    {
      ghost var m, top := ram[..], initialAddr + size;
      SaneAt(m, segs, i, initialAddr, top);
      TakeTags(ram, hole, holeSize, request, segs[i]);
      TakenIsSane(m, ram[..], segs, i, request, initialAddr, top);
      segs := Taken(segs, i, request);
    }

    /** Gives hole `i`, taken out of the index before, to a request; a rest large enough is indexed. */
    method TakeHole(hole: nat, holeSize: nat, request: nat, ghost i: nat)
      requires Run() && Mapped() && i < |segs| && segs[i] == Segment(hole, holeSize, false) && request <= holeSize
      requires avl.Valid() && avl.Index() == HolesOf(segs) - {HoleOf(segs[i])} && avl.spare != []
      modifies this`segs, ram, avl, avl.pool
      ensures Valid() && segs == Taken(old(segs), i, request)
      ensures PayloadsKept(old(ram[..]), ram[..], old(segs))
    {
      TakenIndex(segs, i, request, initialAddr, initialAddr + size);
      TakeSegment(hole, holeSize, request, i);
      if holeSize > request + TagsSize {
        avl.Insert(holeSize - request - TagsSize, hole + TagsSize + request + HeaderSize);
      }
      assert Run();
      assert Mapped();
      assert avl.Valid();
      assert avl.Index() == HolesOf(segs);
    }

    /** A heap in which nothing is roomy enough is short of a trailing hole. */
    lemma NothingFoundIsShort(request: nat, alignment: nat)
      requires Valid() && avl.FindHole(request, alignment).None?
      ensures ShortBy(segs, request, alignment) > 0 && NoneRoomy(segs, request, alignment)
    {
      var last := segs[|segs| - 1];
      if !last.used {
        InHolesOf(segs, HoleOf(last));
        assert !Roomy(HoleOf(last), request, alignment);
      }
    }

    /** The heap may grow as far as the request can need. */
    ghost predicate CanGrowFor(request: nat, alignment: nat)
      requires segs != []
      reads this, avl
    {
      && initialAddr + size + PageBytes(PagesFor(ShortBy(segs, request, alignment))) <= ram.Length
      && (segs[|segs| - 1].used ==> avl.spare != [])
    }

    /** The segment of the hole found, and how far into it the block starts. */
    lemma FoundIsChosen(found: Hole, request: nat, alignment: nat) returns (i: nat, gap: nat)
      requires Valid() && avl.FindHole(request, alignment) == Some(found)
      ensures Chosen(segs, i, gap, request, alignment) && found == HoleOf(segs[i])
      ensures gap == Align(found.addr, alignment) - found.addr
      ensures Sound(avl.tree) && Holes(avl.tree) == HolesOf(segs)
      ensures Search(avl.tree, request, alignment) == Some(HoleOf(segs[i]))
      ensures i == 0 && gap > 0 <==> Refused(found, initialAddr, alignment)
    {
      i, gap := ChosenBySearch(avl.tree, segs, found, request, alignment, initialAddr, initialAddr + size);
    }

    /** Serves a request from the hole found for it. */
    method AllocFrom(found: Hole, request: nat, alignment: nat) returns (r: Outcome, ghost i: nat, ghost gap: nat)
      requires Valid() && avl.FindHole(request, alignment) == Some(found)
      modifies this`segs, ram, avl, avl.pool
      ensures Chosen(old(segs), i, gap, request, alignment)
      ensures Decided(old(avl.tree), old(segs), i, request, alignment, initialAddr, r)
      ensures r.Halted? <==> i == 0 && gap > 0
      ensures r.Given? ==>
                Valid() && r.ptr == UserAddr(old(segs)[i]) + gap && segs == Served(old(segs), i, gap, request)
      ensures r.Given? ==> PayloadsKept(old(ram[..]), ram[..], old(segs))
    {
      i, gap := FoundIsChosen(found, request, alignment);
      var aligned := Align(found.addr, alignment);
      r := ServeFrom(found.addr, aligned - found.addr, request, i);
    }

    /** Allocates. While nothing is found the heap grows by a page, which happens only as long as no hole is sure to
        fit. It serves from a hole that fits once aligned and that comes no later in the index than any sure to fit. */
    method Alloc(request: nat, alignment: nat)
      returns (r: Outcome, ghost grownBy: nat, ghost i: nat, ghost gap: nat, ghost index: Tree)
      requires Valid() && (avl.FindHole(request, alignment).Some? || CanGrowFor(request, alignment))
      modifies this`size, this`pages, this`segs, this`mapped, ram, avl, avl.pool
      ensures grownBy <= PagesFor(ShortBy(old(segs), request, alignment))
      ensures LittleGrowth(request, alignment, grownBy)
      ensures grownBy == 0 <==> old(avl.FindHole(request, alignment)).Some?
      ensures grownBy == 0 ==> index == old(avl.tree)
      ensures NeedsGrowth(old(segs), request, alignment, grownBy)
      ensures Allocated(old(segs), request, alignment, grownBy, i, gap, r, segs)
      ensures Decided(index, Grown(old(segs), grownBy), i, request, alignment, initialAddr, r)
      ensures r.Given? ==> Valid() && size == old(size) + PageBytes(grownBy)
      ensures r.Given? ==> PayloadsKept(old(ram[..]), ram[..], old(segs))
      decreases ShortBy(segs, request, alignment), 1
    {
      var found := avl.FindHole(request, alignment);
      if found.Some? {
        grownBy, index := 0, avl.tree;
        r, i, gap := AllocFrom(found.value, request, alignment);
      } else {
        NothingFoundIsShort(request, alignment);
        GrowsLittle(segs, request, alignment);
        r, grownBy, i, gap, index := AllocGrown(request, alignment);
      }
    }

    /** Grows by a page and tries again. */
    method AllocGrown(request: nat, alignment: nat)
      returns (r: Outcome, ghost grownBy: nat, ghost i: nat, ghost gap: nat, ghost index: Tree)
      requires Valid() && CanGrowFor(request, alignment) && ShortBy(segs, request, alignment) > 0
      requires NoneRoomy(segs, request, alignment)
      modifies this`size, this`pages, this`segs, this`mapped, ram, avl, avl.pool
      ensures 1 <= grownBy <= PagesFor(ShortBy(old(segs), request, alignment))
      ensures NeedsGrowth(old(segs), request, alignment, grownBy)
      ensures Allocated(old(segs), request, alignment, grownBy, i, gap, r, segs)
      ensures Decided(index, Grown(old(segs), grownBy), i, request, alignment, initialAddr, r)
      ensures r.Given? ==> Valid() && size == old(size) + PageBytes(grownBy)
      ensures r.Given? ==> PayloadsKept(old(ram[..]), ram[..], old(segs))
      decreases ShortBy(segs, request, alignment), 0
    {
      ghost var before, m := segs, ram[..];
      ExtendedIsNearer(segs, request, alignment);
      Grow();
      ghost var m1, n := ram[..], 0;
      r, n, i, gap, index := Alloc(request, alignment);
      grownBy := n + 1;
      GrownOnceMore(before, request, alignment, n, grownBy, i, gap, r, segs, index, initialAddr);
      NeedsOneMore(before, request, alignment, n, grownBy);
      ExtendedBlocks(before);
      if r.Given? {
        PayloadsThrough(m, m1, ram[..], before, Extended(before));
      }
    }

    /** Joins block `i` with the segment before it, if that is a hole; tells the hole, and the joined segment. */
    method JoinPrevious(header: nat, blockSize: nat, ghost i: nat)
      returns (before: Option<Hole>, first: nat, joined: nat)
      requires Run() && i < |segs| && segs[i] == Segment(header, blockSize, true)
      modifies ram
      ensures before == if MergeFrom(segs, i) < i then Some(HoleOf(segs[i - 1])) else None
      ensures first == segs[MergeFrom(segs, i)].addr && first + TagsSize + joined == End(segs[i])
      ensures Tagged(ram[..], Segment(first, joined, before.None?))
      ensures Changed(old(ram[..]), ram[..], first, End(segs[i]))
    {
      SaneAt(ram[..], segs, i, initialAddr, initialAddr + size);
      before, first, joined := None, header, blockSize;
      if header != initialAddr {
        var previous := Word(ram, header - FooterSize + 4);
        assert previous == segs[i - 1].addr;
        if Word(ram, previous + 8) == 0 {
          var previousSize := Word(ram, previous + 4);
          before := Some(Hole(previousSize, previous + HeaderSize));
          first, joined := previous, previousSize + TagsSize + blockSize;
          JoinTags(ram, first, joined, header + HeaderSize + blockSize, segs[i - 1], segs[i]);
        }
      }
    }

    /** Joins the segment `s`, which ends with block `i`, with the one after it, if that is a hole. */
    method JoinNext(first: nat, size0: nat, ghost s: Segment, ghost i: nat, ghost m: Bytes)
      returns (after: Option<Hole>, joined: nat)
      requires RunIn(m) && i < |segs| && segs[i].used && s.addr == first && s.size == size0 && End(s) == End(segs[i])
      requires Tagged(ram[..], s) && Changed(m, ram[..], first, End(s))
      modifies ram
      ensures after == if MergeTo(segs, i) > i then Some(HoleOf(segs[i + 1])) else None
      ensures first + TagsSize + joined == End(segs[MergeTo(segs, i)])
      ensures Tagged(ram[..], Segment(first, joined, s.used))
      ensures Changed(m, ram[..], first, End(segs[MergeTo(segs, i)]))
    {
      NextOrEnd(m, segs, i, initialAddr, initialAddr + size);
      after, joined := None, size0;
      var footer := first + HeaderSize + size0;
      if footer != initialAddr + size - FooterSize {
        var next := footer + FooterSize;
        NextIsIntact(m, ram[..], segs, i, first, initialAddr, initialAddr + size);
        if Word(ram, next + 8) == 0 {
          var nextSize := Word(ram, next + 4);
          after := Some(Hole(nextSize, next + HeaderSize));
          joined := size0 + TagsSize + nextSize;
          JoinTags(ram, first, joined, next + HeaderSize + nextSize, s, segs[i + 1]);
        }
      }
    }

    /** `Run` as of an earlier memory. */
    ghost predicate RunIn(m: Bytes)
      reads this
    {
      |m| == ram.Length && initialAddr + size <= |m| <= WordLimit && Sane(m, segs, initialAddr, initialAddr + size)
    }

    /** Joins block `i` with the holes next to it; tells those, and the joined segment. */
    method JoinNeighbours(ptr: nat, ghost i: nat)
      returns (before: Option<Hole>, after: Option<Hole>, first: nat, joined: nat)
      requires Run() && i < |segs| && segs[i].used && ptr == UserAddr(segs[i])
      modifies ram
      ensures before == if MergeFrom(segs, i) < i then Some(HoleOf(segs[i - 1])) else None
      ensures after == if MergeTo(segs, i) > i then Some(HoleOf(segs[i + 1])) else None
      ensures Segment(first, joined, false) == Merged(segs, i)
      ensures Tagged(ram[..], Segment(first, joined, before.None?))
      ensures Changed(old(ram[..]), ram[..], first, End(segs[MergeTo(segs, i)]))
    {
      ghost var m := ram[..];
      SaneAt(m, segs, i, initialAddr, initialAddr + size);
      MergedSpan(segs, i, initialAddr, initialAddr + size);
      var header := ptr - HeaderSize;
      assert Word(ram, header + 8) == 1;
      before, first, joined := JoinPrevious(header, Word(ram, header + 4), i);
      after, joined := JoinNext(first, joined, Segment(first, joined, before.None?), i, m);
    }

    /** Turns block `i` and the holes next to it into one hole, in memory; tells those holes. */
    method FreeSegments(ptr: nat, ghost i: nat) returns (before: Option<Hole>, after: Option<Hole>, hole: Hole)
      requires Run() && i < |segs| && segs[i].used && ptr == UserAddr(segs[i])
      modifies this`segs, ram
      ensures Run() && segs == Freed(old(segs), i)
      ensures before == if MergeFrom(old(segs), i) < i then Some(HoleOf(old(segs)[i - 1])) else None
      ensures after == if MergeTo(old(segs), i) > i then Some(HoleOf(old(segs)[i + 1])) else None
      ensures hole == HoleOf(Merged(old(segs), i))
      ensures OthersKept(old(ram[..]), ram[..], old(segs), old(segs)[i])
    {
      ghost var m, top := ram[..], initialAddr + size;
      var first, joined;
      before, after, first, joined := JoinNeighbours(ptr, i);
      hole := Hole(joined, first + HeaderSize);
      ghost var t := Segment(first, joined, before.None?);
      MergedSpan(segs, i, initialAddr, top);
      SetUsed(ram, first, false, t);
      assert t.(used := false) == Merged(segs, i);
      FreedIsSane(m, ram[..], segs, i, initialAddr, top);
      segs := Freed(segs, i);
    }

    /** Releases the block at `ptr`, which is segment `i`, and joins it with the holes next to it. */
    method Free(ptr: nat, ghost i: nat)
      requires Valid() && i < |segs| && segs[i].used && ptr == UserAddr(segs[i])
      requires MergeFrom(segs, i) < MergeTo(segs, i) || avl.spare != []
      modifies this`segs, ram, avl, avl.pool
      ensures Valid() && segs == Freed(old(segs), i)
      ensures OthersKept(old(ram[..]), ram[..], old(segs), old(segs)[i])
    {
      ghost var was, top := segs, initialAddr + size;
      var before, after, hole := FreeSegments(ptr, i);
      IndexFreed(avl, before, after, hole, was, i, initialAddr, top);
    }
  }
}

/** The writes to memory by which the heap changes segments: each leaves the new tags in place and touches nothing
    but the segments it is about. */
module SegmentTags {
  import opened Ram
  import opened Segments
  import opened SegmentOps

  /** Enlarges the block `p` to `p'` and writes its new footer, which may lie over the old one. */
  method EnlargeBlock(ram: array<int>, block: nat, newSize: nat, newFooter: nat, ghost p: Segment, ghost p': Segment)
    requires Tagged(ram[..], p) && p'.addr == p.addr && p'.used == p.used && p'.size > p.size
    requires End(p') <= ram.Length <= WordLimit
    requires block == p.addr && newSize == p'.size && newFooter == FooterAddr(p')
    modifies ram
    ensures Tagged(ram[..], p')
    ensures Agree(old(ram[..]), ram[..], 0, p.addr)
    ensures Agree(old(ram[..]), ram[..], UserAddr(p), newFooter)
    ensures Agree(old(ram[..]), ram[..], End(p'), ram.Length)
  {
    SetSize(ram, block, newSize, p.size, p.used);
    ghost var m := ram[..];
    WriteFooter(ram, newFooter, block);
    HeaderAgrees(m, ram[..], block, newSize, p'.used);
  }

  /** Moves the header of the hole `h` up to that of `h'`, and tells its footer, of which only the magic is left to
      rely on. */
  method MoveHeader(ram: array<int>, footer: nat, newHole: nat, newSize: nat, ghost h: Segment, ghost h': Segment)
    requires End(h') == End(h) && !h'.used && End(h) <= ram.Length <= WordLimit
    requires Load16(ram[..], FooterAddr(h)) == FooterMagic
    requires footer == FooterAddr(h) && newHole == h'.addr && newSize == h'.size
    modifies ram
    ensures Tagged(ram[..], h')
    ensures Agree(old(ram[..]), ram[..], 0, newHole)
    ensures Agree(old(ram[..]), ram[..], End(h), ram.Length)
  {
    ghost var m := ram[..];
    Store32(ram, footer + 4, newHole);
    ghost var m1 := ram[..];
    LoadAgrees(m, m1, footer, 2);
    WriteHeader(ram, newHole, newSize, false);
    assert footer == FooterAddr(h');
    FooterAgrees(m1, ram[..], footer, newHole);
  }

  /** Lets the block `p` take over the first `gap` bytes of the hole `h` behind it. What is needed of the old tags is
      read before the new ones may damage them. */
  method PadTags(ram: array<int>, hole: nat, holeSize: nat, gap: nat, ghost p: Segment, ghost h: Segment)
    requires Tagged(ram[..], p) && Tagged(ram[..], h) && p.used && h == Segment(hole, holeSize, false)
    requires hole == End(p) && 0 < gap <= holeSize && End(h) <= ram.Length <= WordLimit
    modifies ram
    ensures Layout(ram[..], PadPair(p, h, gap))
    ensures Changed(old(ram[..]), ram[..], p.addr, End(h))
    ensures Agree(old(ram[..]), ram[..], UserAddr(p), FooterAddr(p))
  {
    ghost var m, p', h' := ram[..], p.(size := p.size + gap), Segment(hole + gap, holeSize - gap, false);
    var footer, previousFooter := hole + HeaderSize + holeSize, hole - FooterSize;
    var previous, previousSize := BlockOfFooter(ram, previousFooter, p);
    var newPreviousFooter := hole + gap - FooterSize;
    EnlargeBlock(ram, previous, previousSize + (newPreviousFooter - previousFooter), newPreviousFooter, p, p');
    ghost var m1 := ram[..];
    MagicStays(m, m1, h, End(p'));
    MoveHeader(ram, footer, hole + gap, holeSize - gap, h, h');
    PadIsLaid(m, m1, ram[..], p, p', h, h', gap);
  }

  /** The footer magic of `h` outlives changes below it. */
  lemma MagicStays(m: Bytes, m': Bytes, h: Segment, from: nat)
    requires Tagged(m, h) && Agree(m, m', from, |m|) && from <= FooterAddr(h)
    ensures Load16(m', FooterAddr(h)) == FooterMagic
  {
    LoadAgrees(m, m', FooterAddr(h), 2);
  }

  /** The two steps of padding together. */
  lemma PadIsLaid(m: Bytes, m1: Bytes, m2: Bytes, p: Segment, p': Segment, h: Segment, h': Segment, gap: nat)
    requires p' == p.(size := p.size + gap) && gap <= h.size && h.addr == End(p) && !h.used
    requires h' == Segment(h.addr + gap, h.size - gap, false) && Tagged(m1, p') && Tagged(m2, h') && End(h) <= |m|
    requires Agree(m, m1, 0, p.addr) && Agree(m, m1, UserAddr(p), FooterAddr(p')) && Agree(m, m1, End(p'), |m|)
    requires Agree(m1, m2, 0, h'.addr) && Agree(m1, m2, End(h), |m|)
    ensures Layout(m2, PadPair(p, h, gap))
    ensures Changed(m, m2, p.addr, End(h)) && Agree(m, m2, UserAddr(p), FooterAddr(p))
  {
    TagsAgree(m1, m2, p');
    assert PadPair(p, h, gap) == [p', h'];
  }

  /** The header a footer belongs to, and the size it tells. */
  method BlockOfFooter(ram: array<int>, footer: nat, ghost p: Segment) returns (block: nat, size: nat)
    requires Tagged(ram[..], p) && footer == FooterAddr(p)
    ensures block == p.addr && size == p.size
  {
    block := Word(ram, footer + 4);
    size := Word(ram, block + 4);
  }

  /** Cuts the hole `h` down to the block `b` at its start, with a footer of its own. */
  method CutBlock(ram: array<int>, hole: nat, request: nat, ghost h: Segment, ghost b: Segment)
    requires Tagged(ram[..], h) && b == Segment(h.addr, request, true) && hole == h.addr
    requires End(b) <= End(h) <= ram.Length <= WordLimit
    modifies ram
    ensures Tagged(ram[..], b)
    ensures Agree(old(ram[..]), ram[..], 0, hole)
    ensures Agree(old(ram[..]), ram[..], End(b), ram.Length)
  {
    ghost var m := ram[..];
    Store32(ram, hole + 4, request);
    ghost var m1 := ram[..];
    Store32(ram, hole + 8, 1);
    ghost var m2 := ram[..];
    LoadAgrees(m, m2, hole, 2);
    LoadAgrees(m1, m2, hole + 4, 4);
    WriteFooter(ram, hole + HeaderSize + request, hole);
    HeaderAgrees(m2, ram[..], hole, request, true);
  }

  method SetUsed(ram: array<int>, header: nat, used: bool, ghost s: Segment)
    requires Tagged(ram[..], s) && header == s.addr
    modifies ram
    ensures Tagged(ram[..], s.(used := used))
    ensures Changed(old(ram[..]), ram[..], s.addr, UserAddr(s))
  {
    ghost var m := ram[..];
    Store32(ram, header + 8, if used then 1 else 0);
    LoadAgrees(m, ram[..], header, 2);
    LoadAgrees(m, ram[..], header + 4, 4);
    FooterAgrees(m, ram[..], FooterAddr(s), header);
  }

  /** Gives the hole `h` to a request, splitting off the rest when it can hold its own tags and more. */
  method TakeTags(ram: array<int>, hole: nat, holeSize: nat, request: nat, ghost h: Segment)
    requires Tagged(ram[..], h) && h == Segment(hole, holeSize, false) && request <= holeSize
    requires End(h) <= ram.Length <= WordLimit
    modifies ram
    ensures Layout(ram[..], TakenFrom(h, request))
    ensures Changed(old(ram[..]), ram[..], h.addr, End(h))
  {
    if holeSize > request + TagsSize {
      ghost var m, b, rest := ram[..], TakenFrom(h, request)[0], TakenFrom(h, request)[1];
      CutBlock(ram, hole, request, h, b);
      ghost var m1 := ram[..];
      LoadAgrees(m, m1, FooterAddr(h), 2);
      MoveHeader(ram, hole + HeaderSize + holeSize, hole + TagsSize + request, holeSize - request - TagsSize, h, rest);
      TagsAgree(m1, ram[..], b);
    } else {
      SetUsed(ram, hole, true, h);
    }
  }

  /** Lets the segment at `first` swallow the one behind it. */
  method JoinTags(ram: array<int>, first: nat, size: nat, secondFooter: nat, ghost s: Segment, ghost t: Segment)
    requires Tagged(ram[..], s) && Tagged(ram[..], t) && t.addr == End(s) && End(t) <= ram.Length <= WordLimit
    requires first == s.addr && size == s.size + TagsSize + t.size && secondFooter == FooterAddr(t)
    modifies ram
    ensures Tagged(ram[..], Segment(s.addr, size, s.used))
    ensures Changed(old(ram[..]), ram[..], s.addr, End(t))
  {
    ghost var m := ram[..];
    SetSize(ram, first, size, s.size, s.used);
    ghost var m1 := ram[..];
    FooterAgrees(m, m1, secondFooter, t.addr);
    SetHeaderOf(ram, secondFooter, first, t.addr);
    HeaderAgrees(m1, ram[..], first, size, s.used);
  }

  /** Writes a new hole of one page behind everything. */
  method AppendTags(ram: array<int>, top: nat, ghost x: Segment)
    requires x == Segment(top, PageSize - TagsSize, false) && End(x) <= ram.Length <= WordLimit
    modifies ram
    ensures Tagged(ram[..], x)
    ensures Agree(old(ram[..]), ram[..], 0, top)
  {
    WriteHeader(ram, top, PageSize - TagsSize, false);
    ghost var m := ram[..];
    WriteFooter(ram, top + PageSize - FooterSize, top);
    HeaderAgrees(m, ram[..], top, x.size, false);
    assert FooterAddr(x) == top + PageSize - FooterSize;
  }
}

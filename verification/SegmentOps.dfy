/** What growth, alignment padding, allocation and release make of the run of segments, and what they keep. */
module SegmentOps {
  import opened Alignment
  import opened HoleTree
  import opened Ram
  import opened Segments

  /** A block and the hole behind it, after the block took over the hole's first `gap` bytes. */
  function PadPair(p: Segment, h: Segment, gap: nat): seq<Segment>
    requires gap <= h.size
  {
    [p.(size := p.size + gap), Segment(h.addr + gap, h.size - gap, h.used)]
  }

  /** The block before hole `i` takes over the first `gap` bytes, so that the hole starts later. */
  function Padded(segs: seq<Segment>, i: nat, gap: nat): seq<Segment>
    requires 0 < i < |segs| && gap <= segs[i].size
  {
    segs[..i - 1] + PadPair(segs[i - 1], segs[i], gap) + segs[i + 1..]
  }

  /** A hole given to a request: the rest becomes a hole if it can hold its own tags and more. */
  function TakenFrom(h: Segment, request: nat): seq<Segment> {
    if h.size > request + TagsSize
    then [Segment(h.addr, request, true),
          Segment(h.addr + TagsSize + request, h.size - request - TagsSize, false)]
    else [h.(used := true)]
  }

  function Taken(segs: seq<Segment>, i: nat, request: nat): seq<Segment>
    requires i < |segs|
  {
    segs[..i] + TakenFrom(segs[i], request) + segs[i + 1..]
  }

  /** Hole `i` made to start `gap` bytes later. */
  function Shifted(segs: seq<Segment>, i: nat, gap: nat): seq<Segment>
    requires i < |segs| && gap <= segs[i].size && (gap > 0 ==> i > 0)
  {
    if gap > 0 then Padded(segs, i, gap) else segs
  }

  /** Hole `i` given to a request `gap` bytes after its start. */
  function Served(segs: seq<Segment>, i: nat, gap: nat, request: nat): seq<Segment>
    requires i < |segs| && gap <= segs[i].size && (gap > 0 ==> i > 0)
  {
    Taken(Shifted(segs, i, gap), i, request)
  }

  /** One page more at the end: the last hole grows, or a new hole follows the last block. */
  function Extended(segs: seq<Segment>): seq<Segment>
    requires segs != []
  {
    var last := segs[|segs| - 1];
    if last.used then segs + [Segment(End(last), PageSize - TagsSize, false)]
    else segs[..|segs| - 1] + [last.(size := last.size + PageSize)]
  }

  function Grown(segs: seq<Segment>, pages: nat): seq<Segment>
    requires segs != []
    decreases pages
  {
    if pages == 0 then segs else Grown(Extended(segs), pages - 1)
  }

  /** The first and last segment that join when block `i` is released. */
  function MergeFrom(segs: seq<Segment>, i: nat): nat
    requires i < |segs|
  {
    if i > 0 && !segs[i - 1].used then i - 1 else i
  }

  function MergeTo(segs: seq<Segment>, i: nat): nat
    requires i < |segs|
  {
    if i + 1 < |segs| && !segs[i + 1].used then i + 1 else i
  }

  /** The hole a released block becomes, with the holes next to it. */
  function Merged(segs: seq<Segment>, i: nat): Segment
    requires i < |segs|
  {
    var before := if MergeFrom(segs, i) < i then segs[i - 1].size + TagsSize else 0;
    var after := if MergeTo(segs, i) > i then segs[i + 1].size + TagsSize else 0;
    Segment(segs[MergeFrom(segs, i)].addr, before + segs[i].size + after, false)
  }

  function Freed(segs: seq<Segment>, i: nat): seq<Segment>
    requires i < |segs|
  {
    segs[..MergeFrom(segs, i)] + [Merged(segs, i)] + segs[MergeTo(segs, i) + 1..]
  }

  lemma Around(segs: seq<Segment>, from: nat, to: nat)
    requires from <= to <= |segs|
    ensures segs == segs[..from] + segs[from..to] + segs[to..]
  {}

  lemma TileAt(segs: seq<Segment>, i: nat, lo: nat, hi: nat)
    requires Tiles(segs, lo, hi) && i < |segs|
    ensures lo <= segs[i].addr && End(segs[i]) <= hi
    ensures i > 0 ==> lo < segs[i].addr && End(segs[i - 1]) == segs[i].addr
    ensures i + 1 < |segs| ==> End(segs[i]) == segs[i + 1].addr && End(segs[i]) < hi
    ensures i == 0 ==> segs[i].addr == lo
    ensures i + 1 == |segs| ==> End(segs[i]) == hi
  {
    Around(segs, i, i + 1);
    var q := TilesSplit(segs[..i] + segs[i..i + 1], segs[i + 1..], lo, hi);
    var p := TilesSplit(segs[..i], segs[i..i + 1], lo, q);
    Bounded(segs, lo, hi);
    assert segs[i] in segs;
    if i > 0 {
      assert segs[i - 1] in segs;
    }
    if i + 1 < |segs| {
      assert segs[i + 1] in segs;
    }
  }

  lemma {:induction false} NoTwinsAt(segs: seq<Segment>, i: nat)
    requires NoTwins(segs) && i + 1 < |segs|
    ensures segs[i].used || segs[i + 1].used
    decreases i
  {
    if i > 0 {
      NoTwinsAt(segs[1..], i - 1);
    }
  }

  lemma PaddedKeeps(segs: seq<Segment>, i: nat, gap: nat, lo: nat, hi: nat)
    requires Tiles(segs, lo, hi) && NoTwins(segs) && 0 < i < |segs|
    requires !segs[i].used && gap <= segs[i].size
    ensures segs[i - 1].used
    ensures var out := Padded(segs, i, gap);
            && Tiles(out, lo, hi) && NoTwins(out) && |out| == |segs|
            && HolesOf(out) - {HoleOf(out[i])} == HolesOf(segs) - {HoleOf(segs[i])}
  {
    NoTwinsAt(segs, i - 1);
    TileAt(segs, i, lo, hi);
    Around(segs, i - 1, i + 1);
    var a, s, b := segs[..i - 1], segs[i - 1..i + 1], segs[i + 1..];
    var s' := PadPair(segs[i - 1], segs[i], gap);
    assert s == [segs[i - 1], segs[i]];
    ReplacedTiles(a, s, s', b, lo, hi);
    HolesOfPair(s[0], s[1]);
    HolesOfPair(s'[0], s'[1]);
    NoTwinsJoin(a + s, b);
    ReplacedNoTwins(a, s, s', b);
  }

  lemma TakenKeeps(segs: seq<Segment>, i: nat, request: nat, lo: nat, hi: nat)
    requires Tiles(segs, lo, hi) && NoTwins(segs) && i < |segs| && !segs[i].used && request <= segs[i].size
    ensures var out := Taken(segs, i, request);
            && Tiles(out, lo, hi) && NoTwins(out)
            && HolesOf(out) == HolesOf(segs) - {HoleOf(segs[i])} + HolesOf(TakenFrom(segs[i], request))
            && forall h :: h in HolesOf(TakenFrom(segs[i], request)) ==> h !in HolesOf(segs) - {HoleOf(segs[i])}
  {
    Around(segs, i, i + 1);
    var a, s, s', b := segs[..i], segs[i..i + 1], TakenFrom(segs[i], request), segs[i + 1..];
    assert s == [segs[i]];
    ReplacedTiles(a, s, s', b, lo, hi);
    assert HolesOf(s) == {HoleOf(segs[i])};
    NoTwinsJoin(a + s, b);
    ReplacedNoTwins(a, s, s', b);
  }

  lemma AppendedKeeps(segs: seq<Segment>, lo: nat, hi: nat)
    requires Tiles(segs, lo, hi) && NoTwins(segs) && segs != [] && segs[|segs| - 1].used
    ensures var extra := Segment(End(segs[|segs| - 1]), PageSize - TagsSize, false);
            && Tiles(segs + [extra], lo, hi + PageSize) && NoTwins(segs + [extra])
            && HoleOf(extra) !in HolesOf(segs) && HolesOf(segs + [extra]) == HolesOf(segs) + {HoleOf(extra)}
  {
    var extra := [Segment(End(segs[|segs| - 1]), PageSize - TagsSize, false)];
    TileAt(segs, |segs| - 1, lo, hi);
    TilesJoin(segs, extra, lo, hi, hi + PageSize);
    HolesOfJoin(segs, extra);
    HolesOfPair(extra[0], extra[0]);
    HolesApart(segs, extra, lo, hi, hi + PageSize);
    NoTwinsJoin(segs, extra);
  }

  lemma WidenedKeeps(a: seq<Segment>, last: Segment, lo: nat, hi: nat)
    requires Tiles(a + [last], lo, hi) && NoTwins(a + [last]) && !last.used
    ensures var wide := last.(size := last.size + PageSize);
            && Tiles(a + [wide], lo, hi + PageSize) && NoTwins(a + [wide])
            && HoleOf(wide) !in HolesOf(a + [last]) - {HoleOf(last)}
            && HolesOf(a + [wide]) == HolesOf(a + [last]) - {HoleOf(last)} + {HoleOf(wide)}
  {
    var wide := [last.(size := last.size + PageSize)];
    var p := TilesSplit(a, [last], lo, hi);
    HolesApart(a, [last], lo, p, hi);
    HolesOfJoin(a, [last]);
    HolesOfJoin(a, wide);
    TilesJoin(a, wide, lo, p, hi + PageSize);
    NoTwinsJoin(a, [last]);
    NoTwinsJoin(a, wide);
    HolesApart(a, wide, lo, p, hi + PageSize);
    HolesOfPair(last, wide[0]);
    HolesOfPair(wide[0], wide[0]);
  }

  lemma ExtendedKeeps(segs: seq<Segment>, lo: nat, hi: nat)
    requires Tiles(segs, lo, hi) && NoTwins(segs) && segs != []
    ensures Tiles(Extended(segs), lo, hi + PageSize) && NoTwins(Extended(segs))
    ensures var last, out := segs[|segs| - 1], Extended(segs);
            var others, x := HolesOf(segs) - HoleSet(last), out[|out| - 1];
            && x == (if last.used then Segment(End(last), PageSize - TagsSize, false)
                     else last.(size := last.size + PageSize))
            && HoleOf(x) !in others && HolesOf(out) == others + {HoleOf(x)}
  {
    var n := |segs| - 1;
    if segs[n].used {
      AppendedKeeps(segs, lo, hi);
    } else {
      assert segs == segs[..n] + [segs[n]];
      WidenedKeeps(segs[..n], segs[n], lo, hi);
    }
  }

  /** A stretch of segments replaced by one hole over the same addresses, with blocks on both sides. */
  lemma JoinedKeeps(segs: seq<Segment>, from: nat, to: nat, x: Segment, lo: nat, hi: nat)
    requires Tiles(segs, lo, hi) && NoTwins(segs) && from <= to < |segs|
    requires x.addr == segs[from].addr && End(x) == End(segs[to]) && !x.used
    requires (from > 0 ==> segs[from - 1].used) && (to + 1 < |segs| ==> segs[to + 1].used)
    ensures var out, joined := segs[..from] + [x] + segs[to + 1..], HolesOf(segs[from..to + 1]);
            && Tiles(out, lo, hi) && NoTwins(out)
            && HolesOf(out) == HolesOf(segs) - joined + {HoleOf(x)}
            && HoleOf(x) !in HolesOf(segs) - joined
  {
    var a, s, b := segs[..from], segs[from..to + 1], segs[to + 1..];
    Around(segs, from, to + 1);
    ReplacedTiles(a, s, [x], b, lo, hi);
    assert HolesOf([x]) == {HoleOf(x)};
    ReplacedNoTwins(a, s, [x], b);
  }

  lemma MergeEdges(segs: seq<Segment>, i: nat)
    requires NoTwins(segs) && i < |segs| && segs[i].used
    ensures MergeFrom(segs, i) > 0 ==> segs[MergeFrom(segs, i) - 1].used
    ensures MergeTo(segs, i) + 1 < |segs| ==> segs[MergeTo(segs, i) + 1].used
  {
    var from, to := MergeFrom(segs, i), MergeTo(segs, i);
    if from > 0 {
      NoTwinsAt(segs, from - 1);
    }
    if to + 1 < |segs| {
      NoTwinsAt(segs, to);
    }
  }

  lemma MergedSpan(segs: seq<Segment>, i: nat, lo: nat, hi: nat)
    requires Tiles(segs, lo, hi) && i < |segs|
    ensures End(Merged(segs, i)) == End(segs[MergeTo(segs, i)])
  {
    TileAt(segs, i, lo, hi);
  }

  lemma FreedKeeps(segs: seq<Segment>, i: nat, lo: nat, hi: nat)
    requires Tiles(segs, lo, hi) && NoTwins(segs) && i < |segs| && segs[i].used
    ensures Tiles(Freed(segs, i), lo, hi) && NoTwins(Freed(segs, i))
    ensures var joined := HolesOf(segs[MergeFrom(segs, i)..MergeTo(segs, i) + 1]);
            && HolesOf(Freed(segs, i)) == HolesOf(segs) - joined + {HoleOf(Merged(segs, i))}
            && HoleOf(Merged(segs, i)) !in HolesOf(segs) - joined
  {
    MergedSpan(segs, i, lo, hi);
    MergeEdges(segs, i);
    JoinedKeeps(segs, MergeFrom(segs, i), MergeTo(segs, i), Merged(segs, i), lo, hi);
  }

  /** The hole a released block joins with before it, and the one after it. */
  ghost function HoleBefore(segs: seq<Segment>, i: nat): set<Hole>
    requires i < |segs|
  {
    if MergeFrom(segs, i) < i then {HoleOf(segs[i - 1])} else {}
  }

  ghost function HoleAfter(segs: seq<Segment>, i: nat): set<Hole>
    requires i < |segs|
  {
    if MergeTo(segs, i) > i then {HoleOf(segs[i + 1])} else {}
  }

  lemma HolesOfSlice(segs: seq<Segment>, k: nat)
    requires k < |segs|
    ensures HolesOf(segs[k..k + 1]) == HoleSet(segs[k])
    ensures HoleSet(segs[k]) <= HolesOf(segs)
  {
    assert segs[k..k + 1] == [segs[k]];
    HolesOfPair(segs[k], segs[k]);
    InHolesOf(segs, HoleOf(segs[k]));
  }

  /** The holes among the segments that a released block joins. */
  lemma JoinedHoles(segs: seq<Segment>, i: nat)
    requires i < |segs| && segs[i].used
    ensures HolesOf(segs[MergeFrom(segs, i)..MergeTo(segs, i) + 1]) == HoleBefore(segs, i) + HoleAfter(segs, i)
    ensures HoleBefore(segs, i) <= HolesOf(segs) && HoleAfter(segs, i) <= HolesOf(segs)
  {
    var from, to := MergeFrom(segs, i), MergeTo(segs, i);
    assert segs[from..to + 1] == segs[from..i] + segs[i..i + 1] + segs[i + 1..to + 1];
    HolesOfJoin(segs[from..i] + segs[i..i + 1], segs[i + 1..to + 1]);
    HolesOfJoin(segs[from..i], segs[i..i + 1]);
    HolesOfSlice(segs, from);
    HolesOfSlice(segs, i);
    HolesOfSlice(segs, to);
  }

  /** Releasing a block takes the holes next to it out of the index and puts the joined one in. */
  lemma FreedIndex(segs: seq<Segment>, i: nat, lo: nat, hi: nat)
    requires Tiles(segs, lo, hi) && NoTwins(segs) && i < |segs| && segs[i].used
    ensures HoleBefore(segs, i) <= HolesOf(segs) && HoleAfter(segs, i) <= HolesOf(segs)
    ensures HoleAfter(segs, i) !! HoleBefore(segs, i)
    ensures var others := HolesOf(segs) - HoleBefore(segs, i) - HoleAfter(segs, i);
            && HoleOf(Merged(segs, i)) !in others
            && HolesOf(Freed(segs, i)) == others + {HoleOf(Merged(segs, i))}
  {
    TileAt(segs, i, lo, hi);
    FreedKeeps(segs, i, lo, hi);
    JoinedHoles(segs, i);
  }

  /** Once a stretch of segments is rewritten in memory, the whole new run is laid out, and the blocks outside the
      stretch keep their payloads. */
  lemma RewrittenLayout(m: Bytes, m': Bytes, segs: seq<Segment>, from: nat, to: nat, s': seq<Segment>, lo: nat, hi: nat)
    requires Tiles(segs, lo, hi) && Layout(m, segs) && from < to <= |segs|
    requires Changed(m, m', segs[from].addr, End(segs[to - 1])) && Layout(m', s')
    ensures Layout(m', segs[..from] + s' + segs[to..])
    ensures PayloadsKept(m, m', segs[..from]) && PayloadsKept(m, m', segs[to..])
  {
    Around(segs, from, to);
    ReplacedLayout(m, m', segs[..from], segs[from..to], s', segs[to..], lo, hi);
  }

  /** The run of segments as it must be at any time between operations. */
  ghost predicate Sane(m: Bytes, segs: seq<Segment>, lo: nat, hi: nat) {
    segs != [] && Tiles(segs, lo, hi) && NoTwins(segs) && Layout(m, segs)
  }

  /** What the code may read off a sane run at segment `i` and its neighbours. */
  lemma SaneAt(m: Bytes, segs: seq<Segment>, i: nat, lo: nat, hi: nat)
    requires Sane(m, segs, lo, hi) && i < |segs|
    ensures lo <= segs[i].addr && End(segs[i]) <= hi && Tagged(m, segs[i])
    ensures i > 0 ==> lo < segs[i].addr && End(segs[i - 1]) == segs[i].addr && Tagged(m, segs[i - 1])
    ensures i > 0 && !segs[i].used ==> segs[i - 1].used
    ensures i + 1 < |segs| ==> End(segs[i]) == segs[i + 1].addr && End(segs[i]) < hi && Tagged(m, segs[i + 1])
    ensures i == 0 ==> segs[i].addr == lo
    ensures i + 1 == |segs| ==> End(segs[i]) == hi
  {
    TileAt(segs, i, lo, hi);
    if i > 0 {
      NoTwinsAt(segs, i - 1);
    }
  }

  /** Memory in which hole `i` was moved up by `gap` bytes and the block before it enlarged. */
  lemma PaddedIsSane(m: Bytes, m': Bytes, segs: seq<Segment>, i: nat, gap: nat, lo: nat, hi: nat)
    requires Sane(m, segs, lo, hi) && 0 < i < |segs| && !segs[i].used && gap <= segs[i].size
    requires Changed(m, m', segs[i - 1].addr, End(segs[i]))
    requires Layout(m', PadPair(segs[i - 1], segs[i], gap))
    requires Agree(m, m', UserAddr(segs[i - 1]), FooterAddr(segs[i - 1]))
    ensures Sane(m', Padded(segs, i, gap), lo, hi) && PayloadsKept(m, m', segs)
  {
    PaddedKeeps(segs, i, gap, lo, hi);
    RewrittenLayout(m, m', segs, i - 1, i + 1, PadPair(segs[i - 1], segs[i], gap), lo, hi);
    forall x | x in segs && x.used ensures x in segs[..i - 1] || x == segs[i - 1] || x in segs[i + 1..] {
      var k :| 0 <= k < |segs| && segs[k] == x;
      if k < i - 1 {
        assert segs[..i - 1][k] == x;
      } else if k > i {
        assert segs[i + 1..][k - i - 1] == x;
      }
    }
  }

  lemma RestatedIsSane(m: Bytes, m': Bytes, segs: seq<Segment>, i: nat, lo: nat, hi: nat)
    requires Sane(m, segs, lo, hi) && i < |segs| && !segs[i].used
    requires Changed(m, m', segs[i].addr, End(segs[i])) && Tagged(m', segs[i])
    ensures Sane(m', segs, lo, hi) && PayloadsKept(m, m', segs)
  {
    RewrittenLayout(m, m', segs, i, i + 1, [segs[i]], lo, hi);
    Around(segs, i, i + 1);
    assert segs[i..i + 1] == [segs[i]];
  }

  lemma TakenIsSane(m: Bytes, m': Bytes, segs: seq<Segment>, i: nat, request: nat, lo: nat, hi: nat)
    requires Sane(m, segs, lo, hi) && i < |segs| && !segs[i].used && request <= segs[i].size
    requires Changed(m, m', segs[i].addr, End(segs[i])) && Layout(m', TakenFrom(segs[i], request))
    ensures Sane(m', Taken(segs, i, request), lo, hi) && PayloadsKept(m, m', segs)
  {
    TakenKeeps(segs, i, request, lo, hi);
    RewrittenLayout(m, m', segs, i, i + 1, TakenFrom(segs[i], request), lo, hi);
    Around(segs, i, i + 1);
  }

  /** Every block but `gone` keeps its payload bytes. */
  ghost predicate OthersKept(m: Bytes, m': Bytes, segs: seq<Segment>, gone: Segment) {
    |m'| == |m| && forall s :: s in segs && s.used && s != gone ==> Agree(m, m', UserAddr(s), FooterAddr(s))
  }

  lemma FreedIsSane(m: Bytes, m': Bytes, segs: seq<Segment>, i: nat, lo: nat, hi: nat)
    requires Sane(m, segs, lo, hi) && i < |segs| && segs[i].used
    requires Changed(m, m', segs[MergeFrom(segs, i)].addr, End(segs[MergeTo(segs, i)]))
    requires Tagged(m', Merged(segs, i))
    ensures Sane(m', Freed(segs, i), lo, hi)
    ensures OthersKept(m, m', segs, segs[i])
  {
    var from, to := MergeFrom(segs, i), MergeTo(segs, i);
    FreedKeeps(segs, i, lo, hi);
    RewrittenLayout(m, m', segs, from, to + 1, [Merged(segs, i)], lo, hi);
    forall x | x in segs && x.used && x != segs[i] ensures x in segs[..from] || x in segs[to + 1..] {
      OthersOutside(segs, i, x);
    }
  }

  /** Memory grown by a page: the hole at the very end is new, or is the last hole, now wider. */
  lemma ExtendedIsSane(m: Bytes, m': Bytes, segs: seq<Segment>, lo: nat, hi: nat)
    requires Sane(m, segs, lo, hi)
    requires var last, out := segs[|segs| - 1], Extended(segs);
             && Tagged(m', out[|out| - 1])
             && Agree(m, m', 0, if last.used then hi else last.addr)
    ensures Sane(m', Extended(segs), lo, hi + PageSize) && PayloadsKept(m, m', segs)
  {
    var n := |segs| - 1;
    ExtendedKeeps(segs, lo, hi);
    if segs[n].used {
      LayoutKept(m, m', segs, lo, hi);
    } else {
      assert segs == segs[..n] + [segs[n]];
      var mid := TilesSplit(segs[..n], [segs[n]], lo, hi);
      LayoutKept(m, m', segs[..n], lo, mid);
    }
  }

  lemma OthersOutside(segs: seq<Segment>, i: nat, x: Segment)
    requires i < |segs| && x in segs && x.used && x != segs[i]
    ensures x in segs[..MergeFrom(segs, i)] || x in segs[MergeTo(segs, i) + 1..]
  {
    var from, to := MergeFrom(segs, i), MergeTo(segs, i);
    var k :| 0 <= k < |segs| && segs[k] == x;
    if k < from {
      assert segs[..from][k] == x;
    } else if k > to {
      assert segs[to + 1..][k - to - 1] == x;
    }
  }

  /** Every block of `segs` is still there, at its address and no smaller. */
  ghost predicate BlocksKept(segs: seq<Segment>, segs': seq<Segment>) {
    forall s :: s in segs && s.used ==> Kept(s, segs')
  }

  ghost predicate Kept(s: Segment, segs: seq<Segment>) {
    exists k :: 0 <= k < |segs| && Covers(segs[k], s)
  }

  lemma KeptAs(s: Segment, segs: seq<Segment>, s': Segment)
    requires s' in segs && Covers(s', s)
    ensures Kept(s, segs)
  {
    var k :| 0 <= k < |segs| && segs[k] == s';
  }

  ghost predicate Covers(s': Segment, s: Segment) {
    s'.used && s'.addr == s.addr && s'.size >= s.size
  }

  lemma SameBlocks(segs: seq<Segment>)
    ensures BlocksKept(segs, segs)
  {
    forall s | s in segs && s.used ensures Kept(s, segs) {
      KeptAs(s, segs, s);
    }
  }

  lemma PayloadsThrough(m: Bytes, m1: Bytes, m2: Bytes, segs: seq<Segment>, segs1: seq<Segment>)
    requires PayloadsKept(m, m1, segs) && PayloadsKept(m1, m2, segs1) && BlocksKept(segs, segs1)
    ensures PayloadsKept(m, m2, segs)
  {
    forall s | s in segs && s.used ensures Agree(m, m2, UserAddr(s), FooterAddr(s)) {
      var k :| 0 <= k < |segs1| && Covers(segs1[k], s);
      assert segs1[k] in segs1;
    }
  }

  /** Where a segment of a run sits, relative to a stretch of it. */
  lemma Placed(segs: seq<Segment>, from: nat, to: nat, x: Segment)
    requires from <= to <= |segs| && x in segs
    ensures x in segs[..from] || x in segs[from..to] || x in segs[to..]
  {
    Around(segs, from, to);
  }

  lemma PaddedBlocks(segs: seq<Segment>, i: nat, gap: nat)
    requires 0 < i < |segs| && !segs[i].used && gap <= segs[i].size
    ensures BlocksKept(segs, Padded(segs, i, gap))
  {
    var p, h := segs[i - 1], segs[i];
    forall s | s in segs && s.used ensures Kept(s, Padded(segs, i, gap)) {
      Placed(segs, i - 1, i + 1, s);
      assert segs[i - 1..i + 1] == [p, h];
      KeptAs(s, Padded(segs, i, gap),
             if s in segs[..i - 1] || s in segs[i + 1..] then s else PadPair(p, h, gap)[0]);
    }
  }

  lemma ShiftedKeeps(m: Bytes, segs: seq<Segment>, i: nat, gap: nat, lo: nat, hi: nat)
    requires Sane(m, segs, lo, hi) && i < |segs| && !segs[i].used
    requires gap <= segs[i].size && (gap > 0 ==> i > 0)
    ensures var out, h := Shifted(segs, i, gap), segs[i];
            && |out| == |segs| && out[i] == Segment(h.addr + gap, h.size - gap, false)
            && HolesOf(out) - {HoleOf(out[i])} == HolesOf(segs) - {HoleOf(h)}
            && BlocksKept(segs, out)
  {
    if gap > 0 {
      PaddedKeeps(segs, i, gap, lo, hi);
      PaddedBlocks(segs, i, gap);
    } else {
      SameBlocks(segs);
    }
  }

  lemma ExtendedBlocks(segs: seq<Segment>)
    requires segs != []
    ensures BlocksKept(segs, Extended(segs))
  {
    var n := |segs| - 1;
    assert segs == segs[..n] + [segs[n]];
    forall s | s in segs && s.used ensures Kept(s, Extended(segs)) {
      KeptAs(s, Extended(segs), s);
    }
  }

  lemma TakenBlocks(segs: seq<Segment>, i: nat, request: nat)
    requires i < |segs| && !segs[i].used
    ensures BlocksKept(segs, Taken(segs, i, request))
    ensures var b := TakenFrom(segs[i], request)[0]; b in Taken(segs, i, request)
  {
    var b := TakenFrom(segs[i], request)[0];
    assert Taken(segs, i, request)[i] == b;
    forall s | s in segs && s.used ensures Kept(s, Taken(segs, i, request)) {
      Placed(segs, i, i + 1, s);
      assert segs[i..i + 1] == [segs[i]];
      KeptAs(s, Taken(segs, i, request), s);
    }
  }

  lemma LastSegment(m: Bytes, segs: seq<Segment>, lo: nat, hi: nat)
    requires Sane(m, segs, lo, hi)
    ensures var last := segs[|segs| - 1]; lo <= last.addr && End(last) == hi && Tagged(m, last)
  {
    SaneAt(m, segs, |segs| - 1, lo, hi);
  }

  /** Writes above the heap leave it as it is. */
  lemma AboveIsSane(m: Bytes, m': Bytes, segs: seq<Segment>, lo: nat, hi: nat)
    requires Sane(m, segs, lo, hi) && Agree(m, m', 0, hi)
    ensures Sane(m', segs, lo, hi) && PayloadsKept(m, m', segs)
  {
    LayoutKept(m, m', segs, lo, hi);
  }

  lemma {:induction false} SegmentOfHole(segs: seq<Segment>, h: Hole) returns (i: nat)
    requires h in HolesOf(segs)
    ensures i < |segs| && !segs[i].used && HoleOf(segs[i]) == h
    decreases |segs|
  {
    if !segs[0].used && HoleOf(segs[0]) == h {
      i := 0;
    } else {
      i := SegmentOfHole(segs[1..], h);
      i := i + 1;
    }
  }

  /** What a hole must have, over its request, to be sure to serve it wherever it starts. */
  function Needed(request: nat, alignment: nat): nat {
    request + Stride(alignment) - 1
  }

  /** The bytes at the end of the heap, tags included, that are part of a hole. */
  function Trailing(segs: seq<Segment>): nat
    requires segs != []
  {
    var last := segs[|segs| - 1];
    if last.used then 0 else last.size + TagsSize
  }

  /** How far the last hole is from being sure to serve the request. */
  function ShortBy(segs: seq<Segment>, request: nat, alignment: nat): nat
    requires segs != []
  {
    var needed := Needed(request, alignment) + TagsSize;
    if Trailing(segs) >= needed then 0 else needed - Trailing(segs)
  }

  function PagesFor(bytes: nat): nat {
    (bytes + 4095) / 4096
  }

  /** Each page of growth brings the last hole a page nearer. */
  lemma ExtendedIsNearer(segs: seq<Segment>, request: nat, alignment: nat)
    requires segs != [] && ShortBy(segs, request, alignment) > 0
    ensures !Extended(segs)[|Extended(segs)| - 1].used
    ensures ShortBy(Extended(segs), request, alignment) < ShortBy(segs, request, alignment)
    ensures PagesFor(ShortBy(segs, request, alignment)) == PagesFor(ShortBy(Extended(segs), request, alignment)) + 1
  {
    assert Trailing(Extended(segs)) == Trailing(segs) + 4096;
  }
}

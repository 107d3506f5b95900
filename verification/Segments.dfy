/** A heap as the run of segments it is: where they lie, how their tags lie in memory, which are holes,
    and what allocation, growth and release do to the run. */
module Segments {
  import opened HoleTree
  import opened Ram

  const PageSize := 4096

  /** The number of bytes in `n` pages. */
  function PageBytes(n: nat): nat {
    4096 * n
  }

  /** A block (used) or hole; `addr` is where its header starts, `size` its payload. */
  datatype Segment = Segment(addr: nat, size: nat, used: bool)

  function UserAddr(s: Segment): nat {
    s.addr + HeaderSize
  }

  function FooterAddr(s: Segment): nat {
    s.addr + HeaderSize + s.size
  }

  function End(s: Segment): nat {
    s.addr + TagsSize + s.size
  }

  function HoleOf(s: Segment): Hole {
    Hole(s.size, UserAddr(s))
  }

  /** The segments follow one another without gap from `lo` to `hi`. */
  ghost predicate Tiles(segs: seq<Segment>, lo: nat, hi: nat) {
    if segs == [] then lo == hi
    else segs[0].addr == lo && Tiles(segs[1..], End(segs[0]), hi)
  }

  ghost predicate Tagged(m: Bytes, s: Segment) {
    Header(m, s.addr, s.size, s.used) && Footer(m, FooterAddr(s), s.addr)
  }

  lemma TagsAgree(m: Bytes, m': Bytes, s: Segment)
    requires Tagged(m, s) && Agree(m, m', s.addr, UserAddr(s)) && Agree(m, m', FooterAddr(s), End(s))
    ensures Tagged(m', s)
  {
    HeaderAgrees(m, m', s.addr, s.size, s.used);
    FooterAgrees(m, m', FooterAddr(s), s.addr);
  }

  /** Every segment's header and footer are in memory, the footer pointing to its own header. */
  ghost predicate Layout(m: Bytes, segs: seq<Segment>) {
    forall s :: s in segs ==> Tagged(m, s)
  }

  /** No two neighbouring segments are both holes. */
  ghost predicate NoTwins(segs: seq<Segment>) {
    |segs| < 2 || ((segs[0].used || segs[1].used) && NoTwins(segs[1..]))
  }

  ghost function HolesOf(segs: seq<Segment>): set<Hole> {
    if segs == [] then {}
    else HolesOf(segs[1..]) + (if segs[0].used then {} else {HoleOf(segs[0])})
  }

  lemma {:induction false} InHolesOf(segs: seq<Segment>, h: Hole)
    ensures h in HolesOf(segs) <==> exists s :: s in segs && !s.used && HoleOf(s) == h
    decreases |segs|
  {
    if segs != [] {
      InHolesOf(segs[1..], h);
      assert forall s :: s in segs <==> s == segs[0] || s in segs[1..];
    }
  }

  /** The payload bytes of every block of `segs` are the same in both memories. */
  ghost predicate PayloadsKept(m: Bytes, m': Bytes, segs: seq<Segment>) {
    |m'| == |m| && forall s :: s in segs && s.used ==> Agree(m, m', UserAddr(s), FooterAddr(s))
  }

  lemma {:induction false} TilesJoin(a: seq<Segment>, b: seq<Segment>, lo: nat, mid: nat, hi: nat)
    requires Tiles(a, lo, mid) && Tiles(b, mid, hi)
    ensures Tiles(a + b, lo, hi)
    decreases |a|
  {
    if a == [] {
      assert a + b == b;
    } else {
      TilesJoin(a[1..], b, End(a[0]), mid, hi);
      assert (a + b)[1..] == a[1..] + b;
    }
  }

  lemma {:induction false} TilesSplit(a: seq<Segment>, b: seq<Segment>, lo: nat, hi: nat) returns (mid: nat)
    requires Tiles(a + b, lo, hi)
    ensures Tiles(a, lo, mid) && Tiles(b, mid, hi)
    ensures b != [] ==> mid == b[0].addr
    ensures a != [] ==> mid == End(a[|a| - 1])
    ensures a == [] ==> mid == lo
    ensures b == [] ==> mid == hi
    decreases |a|
  {
    if a == [] {
      assert a + b == b;
      mid := lo;
    } else {
      assert (a + b)[1..] == a[1..] + b;
      mid := TilesSplit(a[1..], b, End(a[0]), hi);
    }
  }

  lemma {:induction false} Bounded(segs: seq<Segment>, lo: nat, hi: nat)
    requires Tiles(segs, lo, hi)
    ensures lo <= hi
    ensures forall s :: s in segs ==> lo <= s.addr && End(s) <= hi
    decreases |segs|
  {
    if segs != [] {
      Bounded(segs[1..], End(segs[0]), hi);
    }
  }

  /** Tags of segments outside the changed stretch stay. */
  lemma LayoutKept(m: Bytes, m': Bytes, segs: seq<Segment>, lo: nat, hi: nat)
    requires Layout(m, segs) && Tiles(segs, lo, hi) && Agree(m, m', lo, hi)
    ensures Layout(m', segs) && PayloadsKept(m, m', segs)
  {
    Bounded(segs, lo, hi);
    forall s | s in segs ensures Tagged(m', s) {
      TagsAgree(m, m', s);
    }
  }

  lemma {:induction false} HolesOfJoin(a: seq<Segment>, b: seq<Segment>)
    ensures HolesOf(a + b) == HolesOf(a) + HolesOf(b)
    decreases |a|
  {
    if a == [] {
      assert a + b == b;
    } else {
      HolesOfJoin(a[1..], b);
      assert (a + b)[1..] == a[1..] + b;
    }
  }

  ghost function HoleSet(s: Segment): set<Hole> {
    if s.used then {} else {HoleOf(s)}
  }

  lemma HolesOfPair(x: Segment, y: Segment)
    ensures HolesOf([x]) == HoleSet(x)
    ensures HolesOf([x, y]) == HoleSet(x) + HoleSet(y)
  {
    assert HolesOf([]) == {};
    assert [x, y] == [x] + [y] && [x][1..] == [] && [y][1..] == [];
    HolesOfJoin([x], [y]);
  }

  lemma HolesApart(a: seq<Segment>, b: seq<Segment>, lo: nat, mid: nat, hi: nat)
    requires Tiles(a, lo, mid) && Tiles(b, mid, hi)
    ensures HolesOf(a) !! HolesOf(b)
  {
    Bounded(a, lo, mid);
    Bounded(b, mid, hi);
    forall h | h in HolesOf(a) ensures h !in HolesOf(b) {
      InHolesOf(a, h);
      InHolesOf(b, h);
    }
  }

  ghost predicate Meet(a: seq<Segment>, b: seq<Segment>) {
    a == [] || b == [] || a[|a| - 1].used || b[0].used
  }

  lemma {:induction false} NoTwinsJoin(a: seq<Segment>, b: seq<Segment>)
    ensures NoTwins(a + b) <==> NoTwins(a) && NoTwins(b) && Meet(a, b)
    decreases |a|
  {
    if a == [] {
      assert a + b == b;
    } else {
      NoTwinsJoin(a[1..], b);
      assert (a + b)[1..] == a[1..] + b;
      if |a| == 1 {
        assert a[1..] + b == b;
      }
    }
  }

  lemma SwappedPart(a: set<Hole>, s: set<Hole>, s': set<Hole>, b: set<Hole>)
    requires a * s == {} && (a + s) * b == {} && a * s' == {} && (a + s') * b == {}
    ensures a + s' + b == a + s + b - s + s'
    ensures forall h :: h in s' ==> h !in a + s + b - s
  {
    forall h ensures h in a + s' + b <==> h in a + s + b - s + s' {
      assert h in s ==> h !in a && h !in b by {
        assert h in s && h in a ==> h in a * s;
        assert h in s && h in b ==> h in (a + s) * b;
      }
    }
    forall h | h in s' ensures h !in a + s + b - s {
      assert h in a ==> h in a * s';
      assert h in b ==> h in (a + s') * b;
    }
  }

  lemma StretchApart(a: seq<Segment>, s: seq<Segment>, b: seq<Segment>, lo: nat, p: nat, q: nat, hi: nat)
    requires Tiles(a, lo, p) && Tiles(s, p, q) && Tiles(b, q, hi)
    ensures HolesOf(a) * HolesOf(s) == {} && (HolesOf(a) + HolesOf(s)) * HolesOf(b) == {}
    ensures HolesOf(a + s + b) == HolesOf(a) + HolesOf(s) + HolesOf(b) && Tiles(a + s + b, lo, hi)
  {
    TilesJoin(a, s, lo, p, q);
    TilesJoin(a + s, b, lo, q, hi);
    HolesApart(a, s, lo, p, q);
    HolesApart(a + s, b, lo, q, hi);
    HolesOfJoin(a, s);
    HolesOfJoin(a + s, b);
  }

  /** One stretch of segments replaced by another over the same addresses. */
  lemma ReplacedTiles(a: seq<Segment>, s: seq<Segment>, s': seq<Segment>, b: seq<Segment>, lo: nat, hi: nat)
    requires Tiles(a + s + b, lo, hi) && s != [] && Tiles(s', s[0].addr, End(s[|s| - 1]))
    ensures Tiles(a + s' + b, lo, hi)
    ensures HolesOf(a + s' + b) == HolesOf(a + s + b) - HolesOf(s) + HolesOf(s')
    ensures forall h :: h in HolesOf(s') ==> h !in HolesOf(a + s + b) - HolesOf(s)
  {
    var q := TilesSplit(a + s, b, lo, hi);
    var p := TilesSplit(a, s, lo, q);
    Bounded(s, p, q);
    StretchApart(a, s, b, lo, p, q, hi);
    StretchApart(a, s', b, lo, p, q, hi);
    SwappedPart(HolesOf(a), HolesOf(s), HolesOf(s'), HolesOf(b));
  }

  lemma ReplacedNoTwins(a: seq<Segment>, s: seq<Segment>, s': seq<Segment>, b: seq<Segment>)
    requires NoTwins(a + s + b) && s' != [] && NoTwins(s') && Meet(a, s') && Meet(s', b)
    ensures NoTwins(a + s' + b)
  {
    NoTwinsJoin(a + s, b);
    NoTwinsJoin(a, s);
    NoTwinsJoin(a, s');
    NoTwinsJoin(a + s', b);
  }

  /** Writing only over one stretch, so that the new segments there are tagged, keeps the whole layout. */
  lemma ReplacedLayout(m: Bytes, m': Bytes, a: seq<Segment>, s: seq<Segment>, s': seq<Segment>, b: seq<Segment>,
                       lo: nat, hi: nat)
    requires Tiles(a + s + b, lo, hi) && s != [] && Layout(m, a + s + b)
    requires Changed(m, m', s[0].addr, End(s[|s| - 1])) && Layout(m', s')
    ensures Layout(m', a + s' + b)
    ensures PayloadsKept(m, m', a) && PayloadsKept(m, m', b)
  {
    var q := TilesSplit(a + s, b, lo, hi);
    var p := TilesSplit(a, s, lo, q);
    Bounded(s, p, q);
    LayoutKept(m, m', a, lo, p);
    LayoutKept(m, m', b, q, hi);
  }
}

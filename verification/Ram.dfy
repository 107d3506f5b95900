/** Byte-addressed memory, and the header and footer of a heap segment as they lie in it. */
module Ram {

  /** Memory contents, one number a byte. Everything the heap stores is below 256. */
  type Bytes = seq<int>

  const HeaderSize := 12
  const FooterSize := 8
  const TagsSize := 20
  const HeaderMagic := 0xABCD
  const FooterMagic := 0xEF01
  const WordLimit := 0x1_0000_0000

  /** The little-endian value of `n` bytes. */
  function Load(m: Bytes, a: nat, n: nat): int
    requires a + n <= |m|
    decreases n
  {
    if n == 0 then 0 else m[a] + 256 * Load(m, a + 1, n - 1)
  }

  lemma {:induction false} LoadAgrees(m: Bytes, m': Bytes, a: nat, n: nat)
    requires a + n <= |m| && |m'| == |m| && forall k :: a <= k < a + n ==> m'[k] == m[k]
    ensures Load(m', a, n) == Load(m, a, n)
    decreases n
  {
    if n > 0 {
      LoadAgrees(m, m', a + 1, n - 1);
    }
  }

  function Load16(m: Bytes, a: nat): int
    requires a + 2 <= |m|
  {
    Load(m, a, 2)
  }

  function Load32(m: Bytes, a: nat): int
    requires a + 4 <= |m|
  {
    Load(m, a, 4)
  }

  method Store16(ram: array<int>, a: nat, v: nat)
    requires a + 2 <= ram.Length && v < 65536
    modifies ram
    ensures Load16(ram[..], a) == v
    ensures Changed(old(ram[..]), ram[..], a, a + 2)
  {
    ram[a], ram[a + 1] := v % 256, v / 256;
    assert Load(ram[..], a + 1, 1) == v / 256;
  }

  method Store32(ram: array<int>, a: nat, v: nat)
    requires a + 4 <= ram.Length && v < WordLimit
    modifies ram
    ensures Load32(ram[..], a) == v
    ensures Changed(old(ram[..]), ram[..], a, a + 4)
  {
    ram[a], ram[a + 1], ram[a + 2], ram[a + 3] := v % 256, v / 256 % 256, v / 65536 % 256, v / 16777216;
    assert Load(ram[..], a + 3, 1) == v / 16777216;
    assert Load(ram[..], a + 2, 2) == v / 65536;
    assert Load(ram[..], a + 1, 3) == v / 256;
  }

  /** `m'` differs from `m` at most in `[lo, hi)`. */
  ghost predicate Changed(m: Bytes, m': Bytes, lo: int, hi: int) {
    |m'| == |m| && forall a :: 0 <= a < |m| && !(lo <= a < hi) ==> m'[a] == m[a]
  }

  /** `m` and `m'` agree on `[lo, hi)`. */
  ghost predicate Agree(m: Bytes, m': Bytes, lo: int, hi: int) {
    |m'| == |m| && forall a :: 0 <= a < |m| && lo <= a < hi ==> m'[a] == m[a]
  }

  /** The header at `h`: magic, size and the used flag, each at its offset in the struct. */
  ghost predicate Header(m: Bytes, h: nat, size: nat, used: bool) {
    && h + HeaderSize <= |m|
    && Load16(m, h) == HeaderMagic
    && Load32(m, h + 4) == size
    && Load32(m, h + 8) == (if used then 1 else 0)
  }

  /** The footer at `f`: magic, and the address of the header it belongs to. */
  ghost predicate Footer(m: Bytes, f: nat, header: nat) {
    && f + FooterSize <= |m|
    && Load16(m, f) == FooterMagic
    && Load32(m, f + 4) == header
  }

  /** The same byte by byte: magic 0xABCD, the size from the fifth byte on, the used flag from the ninth, all least
      significant byte first; in the footer magic 0xEF01 and the header's address from the fifth byte on. */
  lemma TagBytes(m: Bytes, h: nat, size: nat, used: bool, f: nat, header: nat)
    requires Header(m, h, size, used) && Footer(m, f, header) && forall a :: 0 <= a < |m| ==> 0 <= m[a] < 256
    ensures m[h] == 0xCD && m[h + 1] == 0xAB && m[f] == 0x01 && m[f + 1] == 0xEF
    ensures m[h + 4] + 256 * m[h + 5] + 65536 * m[h + 6] + 16777216 * m[h + 7] == size
    ensures m[h + 8] == (if used then 1 else 0) && m[h + 9] == m[h + 10] == m[h + 11] == 0
    ensures m[f + 4] + 256 * m[f + 5] + 65536 * m[f + 6] + 16777216 * m[f + 7] == header
  {
    TwoBytes(m, h);
    TwoBytes(m, f);
    FourBytes(m, h + 4);
    FourBytes(m, h + 8);
    FourBytes(m, f + 4);
  }

  lemma TwoBytes(m: Bytes, a: nat)
    requires a + 2 <= |m|
    ensures Load16(m, a) == m[a] + 256 * m[a + 1]
  {
    assert Load(m, a + 1, 1) == m[a + 1];
  }

  lemma FourBytes(m: Bytes, a: nat)
    requires a + 4 <= |m|
    ensures Load32(m, a) == m[a] + 256 * m[a + 1] + 65536 * m[a + 2] + 16777216 * m[a + 3]
  {
    assert Load(m, a + 3, 1) == m[a + 3];
    assert Load(m, a + 2, 2) == m[a + 2] + 256 * m[a + 3];
    assert Load(m, a + 1, 3) == m[a + 1] + 256 * m[a + 2] + 65536 * m[a + 3];
  }

  lemma HeaderAgrees(m: Bytes, m': Bytes, h: nat, size: nat, used: bool)
    requires Header(m, h, size, used) && Agree(m, m', h, h + HeaderSize)
    ensures Header(m', h, size, used)
  {
    LoadAgrees(m, m', h, 2);
    LoadAgrees(m, m', h + 4, 4);
    LoadAgrees(m, m', h + 8, 4);
  }

  lemma FooterAgrees(m: Bytes, m': Bytes, f: nat, header: nat)
    requires Footer(m, f, header) && Agree(m, m', f, f + FooterSize)
    ensures Footer(m', f, header)
  {
    LoadAgrees(m, m', f, 2);
    LoadAgrees(m, m', f + 4, 4);
  }

  method WriteHeader(ram: array<int>, h: nat, size: nat, used: bool)
    requires h + HeaderSize <= ram.Length && size < WordLimit
    modifies ram
    ensures Header(ram[..], h, size, used)
    ensures Changed(old(ram[..]), ram[..], h, h + HeaderSize)
  {
    Store16(ram, h, HeaderMagic);
    ghost var m1 := ram[..];
    Store32(ram, h + 4, size);
    ghost var m2 := ram[..];
    Store32(ram, h + 8, if used then 1 else 0);
    LoadAgrees(m1, ram[..], h, 2);
    LoadAgrees(m2, ram[..], h + 4, 4);
  }

  method WriteFooter(ram: array<int>, f: nat, header: nat)
    requires f + FooterSize <= ram.Length && header < WordLimit
    modifies ram
    ensures Footer(ram[..], f, header)
    ensures Changed(old(ram[..]), ram[..], f, f + FooterSize)
  {
    Store16(ram, f, FooterMagic);
    ghost var m1 := ram[..];
    Store32(ram, f + 4, header);
    LoadAgrees(m1, ram[..], f, 2);
  }

  /** Writes the size in a header that is there already. */
  method SetSize(ram: array<int>, h: nat, size: nat, ghost was: nat, ghost used: bool)
    requires Header(ram[..], h, was, used) && size < WordLimit
    modifies ram
    ensures Header(ram[..], h, size, used)
    ensures Changed(old(ram[..]), ram[..], h + 4, h + 8)
  {
    ghost var m := ram[..];
    Store32(ram, h + 4, size);
    LoadAgrees(m, ram[..], h, 2);
    LoadAgrees(m, ram[..], h + 8, 4);
  }

  /** Points a footer that is there already to another header. */
  method SetHeaderOf(ram: array<int>, f: nat, header: nat, ghost was: nat)
    requires Footer(ram[..], f, was) && header < WordLimit
    modifies ram
    ensures Footer(ram[..], f, header)
    ensures Changed(old(ram[..]), ram[..], f + 4, f + 8)
  {
    ghost var m := ram[..];
    Store32(ram, f + 4, header);
    LoadAgrees(m, ram[..], f, 2);
  }

  function Word(ram: array<int>, a: nat): int
    requires a + 4 <= ram.Length
    reads ram
  {
    Load32(ram[..], a)
  }
}

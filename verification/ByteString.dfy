/** Bytes, fixed machine widths and the small vocabulary shared by every other module. */
module ByteString {

  datatype Option<+T> = None | Some(value: T)

  type Byte = b: int | 0 <= b < 256

  type Bytes = seq<Byte>

  /** An ASCII string literal as bytes. */
  function Ascii(s: string): (r: Bytes)
    ensures |r| == |s| && forall i :: 0 <= i < |s| && s[i] < 128 as char ==> r[i] == s[i] as int
  {
    seq(|s|, i requires 0 <= i < |s| => if s[i] < 128 as char then s[i] as int else 0)
  }

  // Widths of the C types on the modelled platform: size_t and uintmax_t have 64 bits.
  const U32: nat := 0x1_0000_0000
  const U64: nat := 0x1_0000_0000_0000_0000
  const SIZE_MAX: nat := U64 - 1
  const INT64_MAX: nat := 0x7FFF_FFFF_FFFF_FFFF
  const INT64_MIN: int := -0x8000_0000_0000_0000
  const INT_MAX: nat := 0x7FFF_FFFF

  /** s occupies mem[p .. p + |s|). */
  predicate At(mem: Bytes, p: nat, s: Bytes) {
    p + |s| <= |mem| && mem[p..p + |s|] == s
  }

  lemma AtSplit(mem: Bytes, p: nat, a: Bytes, b: Bytes)
    ensures At(mem, p, a + b) <==> At(mem, p, a) && At(mem, p + |a|, b)
  {
    if p + |a| + |b| <= |mem| {
      var m := mem[p..p + |a| + |b|];
      assert mem[p..p + |a|] == m[..|a|];
      assert mem[p + |a|..p + |a| + |b|] == m[|a|..];
      assert m == m[..|a|] + m[|a|..];
      assert (a + b)[..|a|] == a && (a + b)[|a|..] == b;
    }
  }

  lemma AtSplit3(mem: Bytes, p: nat, a: Bytes, b: Bytes, c: Bytes)
    requires At(mem, p, a + b + c)
    ensures At(mem, p, a) && At(mem, p + |a|, b) && At(mem, p + |a| + |b|, c)
    ensures p + |a| + |b| + |c| <= |mem|
  {
    hide At;
    AtSplit(mem, p, a + b, c);
    AtSplit(mem, p, a, b);
    AtFits(mem, p + |a| + |b|, c);
  }

  lemma AtFits(mem: Bytes, p: nat, s: Bytes)
    requires At(mem, p, s)
    ensures p + |s| <= |mem|
  {
  }

  /** A piece of a text in memory. */
  lemma Piece(mem: Bytes, p: nat, text: Bytes, from: nat, to: nat)
    requires At(mem, p, text) && from <= to <= |text|
    ensures p + to <= |mem| && mem[p + from..p + to] == text[from..to]
    ensures from < to ==> mem[p + from] == text[from]
  {
    var m := mem[p..p + |text|];
    assert forall i :: from <= i < to ==> m[i] == mem[p + i];
    assert m[from..to] == mem[p + from..p + to];
    if from < to { assert mem[p + from] == mem[p + from..p + to][0]; }
  }

  lemma Associate(a: Bytes, b: Bytes, c: Bytes)
    ensures a + b + c == a + (b + c)
  {
  }

  /** The two memories hold the same bytes in [lo, hi). */
  ghost predicate Agree(m: Bytes, m': Bytes, lo: nat, hi: nat) {
    hi <= |m| && hi <= |m'| && forall i :: lo <= i < hi ==> m[i] == m'[i]
  }

  /** Two's-complement reading of a 64-bit pattern (intmax_t from uintmax_t). */
  function ToSigned64(u: nat): int
    requires u < U64
  {
    if u <= INT64_MAX then u else u - U64
  }

  /** An integer of any size, reduced to 64 bits. */
  function Wrap64(i: int): int { ToSigned64(i % U64) }

  /** What storing a non-negative count in a C int leaves of it. */
  function ToInt32(n: nat): int {
    var low := n % U32;
    if low <= INT_MAX then low else low - U32
  }
}

/** benr_next and benr_init of benr.c, as functions from a cursor position to the token found there. */
module BenrToken {
  import opened ByteString
  import opened Numerals
  import opened BencodeTree

  /** struct benr_ctx: where to read, and how many bytes may be read. */
  datatype Span = Span(start: nat, len: nat)

  /** struct benr: the kind, and the union member that goes with it. */
  datatype Benr =
    | BNone
    | BString(start: nat, len: nat)
    | BInt(i: int)
    | BDict(ctx: Span)
    | BList(ctx: Span)
    | BUint(u: nat)
    | BEnd
    | ErrUnexpectedByte(loc: nat)
    | ErrUnexpectedEof
    | ErrUnexpectedByteInInt(loc: nat)
    | ErrUnexpectedEofInInt
    | ErrStringTooLong(error_len: nat)
    | ErrKeyIsNotString

  /** The numeric value of enum benr_kind. */
  function KindCode(b: Benr): int {
    match b
    case BNone => 0
    case BString(_, _) => 1
    case BInt(_) => 2
    case BDict(_) => 3
    case BList(_) => 4
    case BUint(_) => 5
    case BEnd => 6
    case ErrUnexpectedByte(_) => 7
    case ErrUnexpectedEof => 8
    case ErrUnexpectedByteInInt(_) => 9
    case ErrUnexpectedEofInInt => 10
    case ErrStringTooLong(_) => 11
    case ErrKeyIsNotString => 12
  }

  predicate IsError(b: Benr) { KindCode(b) >= 7 }

  predicate IsContainer(b: Benr) { b.BDict? || b.BList? }

  /** The kinds after which benr_next has moved the caller's cursor. */
  predicate Advances(b: Benr) { !IsError(b) && !b.BNone? }

  /** The same token, read from a buffer that ends at hi. */
  function Rebound(b: Benr, hi: nat): Benr {
    match b
    case BDict(c) => BDict(Span(c.start, if c.start <= hi then hi - c.start else 0))
    case BList(c) => BList(Span(c.start, if c.start <= hi then hi - c.start else 0))
    case _ => b
  }

  datatype UintScan = Found(v: nat, next: nat) | BadByte(loc: nat) | RanOut

  /** The digit loop: v is the wrapping uintmax_t accumulator. */
  function ScanUint(mem: Bytes, p: nat, hi: nat, end: Byte, v: nat): (r: UintScan)
    requires p <= hi <= |mem| && v < U64
    ensures r.Found? ==> p < r.next <= hi && r.v < U64 && mem[r.next - 1] == end
    ensures r.BadByte? ==> p <= r.loc < hi && mem[r.loc] != end && !IsDigit(mem[r.loc])
    decreases hi - p
  {
    if p == hi then RanOut
    else if mem[p] == end then Found(v, p + 1)
    else if !IsDigit(mem[p]) then BadByte(p)
    else ScanUint(mem, p + 1, hi, end, (v * 10 % U64 + (mem[p] - ZERO)) % U64)
  }

  /** One turn of the loop. */
  lemma ScanStep(mem: Bytes, p: nat, hi: nat, end: Byte, v: nat)
    requires p <= hi <= |mem| && v < U64
    ensures ScanUint(mem, p, hi, end, v) ==
            if p == hi then RanOut
            else if mem[p] == end then Found(v, p + 1)
            else if !IsDigit(mem[p]) then BadByte(p)
            else ScanUint(mem, p + 1, hi, end, (v * 10 % U64 + (mem[p] - ZERO)) % U64)
  {
  }

  datatype Step = Step(b: Benr, next: nat)

  function NextInt(mem: Bytes, p: nat, hi: nat): Step
    requires p < hi <= |mem|
  {
    if p + 1 == hi then Step(ErrUnexpectedEof, p)
    else
      var neg := mem[p + 1] == MINUS;
      match ScanUint(mem, if neg then p + 2 else p + 1, hi, CH_E, 0)
      case Found(u, q) => Step(BInt(ToSigned64(if neg then u * (U64 - 1) % U64 else u)), q)
      case BadByte(loc) => Step(ErrUnexpectedByteInInt(loc), p)
      case RanOut => Step(ErrUnexpectedEofInInt, p)
  }

  function NextString(mem: Bytes, p: nat, hi: nat): Step
    requires p < hi <= |mem|
  {
    match ScanUint(mem, p, hi, CH_COLON, 0)
    case Found(u, q) =>
      if u > hi - q then Step(ErrStringTooLong(u), p) else Step(BString(q, u), q + u)
    case BadByte(loc) => Step(ErrUnexpectedByteInInt(loc), p)
    case RanOut => Step(ErrUnexpectedEofInInt, p)
  }

  /** benr_next with the cursor at p and hi - p bytes left. */
  function Next(mem: Bytes, p: nat, hi: nat): (r: Step)
    requires p <= hi <= |mem|
    ensures p <= r.next <= hi
    ensures Advances(r.b) <==> p < r.next
    ensures r.b.BString? ==> p < r.b.start && r.b.start + r.b.len == r.next
    ensures r.b.BDict? || r.b.BList? ==> r.b.ctx == Span(p + 1, hi - (p + 1)) && r.next == p + 1
    ensures r.b.BEnd? <==> p < hi && mem[p] == CH_E
    ensures r.b.BEnd? ==> r.next == p + 1
    ensures r.b.BNone? <==> p == hi
    ensures !r.b.BUint?
  {
    if p == hi then Step(BNone, p)
    else if mem[p] == CH_I then NextInt(mem, p, hi)
    else if mem[p] == CH_D then Step(BDict(Span(p + 1, hi - (p + 1))), p + 1)
    else if mem[p] == CH_L then Step(BList(Span(p + 1, hi - (p + 1))), p + 1)
    else if mem[p] == CH_E then Step(BEnd, p + 1)
    else if !IsDigit(mem[p]) then Step(ErrUnexpectedByte(p), p)
    else NextString(mem, p, hi)
  }

  /** benr_init over data_bytes == hi - p bytes at p: an end marker is no value. */
  function Init(mem: Bytes, p: nat, hi: nat): Benr
    requires p <= hi <= |mem|
  {
    var b := Next(mem, p, hi).b;
    if b.BEnd? then ErrUnexpectedByte(p) else b
  }

  // What the digit loop computes.

  /** Along a run of digits the accumulator is the decimal value modulo 2^64. */
  lemma {:induction false} ScanDigits(mem: Bytes, p: nat, q: nat, hi: nat, end: Byte, v: nat)
    requires p <= q <= hi <= |mem| && !IsDigit(end) && AllDigits(mem[p..q])
    ensures ScanUint(mem, p, hi, end, v % U64) == ScanUint(mem, q, hi, end, Decimal(v, mem[p..q]) % U64)
    decreases q - p
  {
    if p == q {
      assert mem[p..q] == [];
    } else {
      var ds := mem[p..q];
      var d := mem[p] - ZERO;
      assert ds[0] == mem[p] && ds[1..] == mem[p + 1..q];
      assert forall i :: 0 <= i < |ds[1..]| ==> ds[1..][i] == ds[i + 1];
      WrapStep(v, d);
      ScanDigits(mem, p + 1, q, hi, end, v * 10 + d);
    }
  }

  /** The loop gives v and stops at next exactly when a digit run before the terminator reads v modulo 2^64. */
  ghost predicate DigitRun(mem: Bytes, p: nat, hi: nat, end: Byte, v: nat, next: nat) {
    && p < next <= hi <= |mem|
    && AllDigits(mem[p..next - 1])
    && mem[next - 1] == end
    && v == Decimal(0, mem[p..next - 1]) % U64
  }

  lemma {:induction false} ScanStopsAtNonDigit(mem: Bytes, p: nat, hi: nat, end: Byte, v: nat)
    requires p <= hi <= |mem| && v < U64 && !IsDigit(end)
    ensures var r := ScanUint(mem, p, hi, end, v);
            r.Found? ==> forall i :: p <= i < r.next - 1 ==> IsDigit(mem[i])
    decreases hi - p
  {
    if p < hi && mem[p] != end && IsDigit(mem[p]) {
      ScanStopsAtNonDigit(mem, p + 1, hi, end, (v * 10 % U64 + (mem[p] - ZERO)) % U64);
    }
  }

  lemma ScanUintMeaning(mem: Bytes, p: nat, hi: nat, end: Byte, v: nat, next: nat)
    requires p <= hi <= |mem| && !IsDigit(end)
    ensures ScanUint(mem, p, hi, end, 0) == Found(v, next) <==> DigitRun(mem, p, hi, end, v, next)
  {
    var r := ScanUint(mem, p, hi, end, 0);
    ScanStopsAtNonDigit(mem, p, hi, end, 0);
    if r.Found? {
      ScanDigits(mem, p, r.next - 1, hi, end, 0);
      assert DigitRun(mem, p, hi, end, r.v, r.next);
    }
    if DigitRun(mem, p, hi, end, v, next) {
      ScanDigits(mem, p, next - 1, hi, end, 0);
    }
  }

  /** printf's digits are read back, reduced to 64 bits. */
  lemma {:induction false} ScanNumeral(mem: Bytes, p: nat, hi: nat, end: Byte, n: nat)
    requires hi <= |mem| && At(mem, p, Numeral(n) + [end]) && p + |Numeral(n)| + 1 <= hi
    requires !IsDigit(end)
    ensures ScanUint(mem, p, hi, end, 0) == Found(n % U64, p + |Numeral(n)| + 1)
    ensures n < U64 ==> n % U64 == n
  {
    var q := p + |Numeral(n)|;
    AtSplit(mem, p, Numeral(n), [end]);
    assert mem[q..q + 1] == [end];
    assert mem[q] == [end][0];
    DecimalOfNumeral(n);
    ScanUintMeaning(mem, p, hi, end, n % U64, q + 1);
  }

  // A token is decided by the bytes it spans.

  lemma {:induction false} ScanLocal(mem: Bytes, p: nat, hi: nat, mem': Bytes, hi': nat, end: Byte, v: nat)
    requires p <= hi <= |mem| && v < U64 && ScanUint(mem, p, hi, end, v).Found?
    requires Agree(mem, mem', p, ScanUint(mem, p, hi, end, v).next)
    requires ScanUint(mem, p, hi, end, v).next <= hi' <= |mem'|
    ensures ScanUint(mem', p, hi', end, v) == ScanUint(mem, p, hi, end, v)
    decreases hi - p
  {
    assert mem[p] == mem'[p];
    if mem[p] != end {
      ScanLocal(mem, p + 1, hi, mem', hi', end, (v * 10 % U64 + (mem[p] - ZERO)) % U64);
    }
  }

  /** Whatever follows a token, and wherever the buffer ends beyond it, the token reads the same. */
  lemma NextLocal(mem: Bytes, p: nat, hi: nat, mem': Bytes, hi': nat)
    requires p <= hi <= |mem| && Advances(Next(mem, p, hi).b)
    requires Agree(mem, mem', p, Next(mem, p, hi).next)
    requires Next(mem, p, hi).next <= hi' <= |mem'|
    ensures Next(mem', p, hi') == Step(Rebound(Next(mem, p, hi).b, hi'), Next(mem, p, hi).next)
  {
    assert mem[p] == mem'[p];
    if mem[p] == CH_I {
      assert mem[p + 1] == mem'[p + 1];
      ScanLocal(mem, if mem[p + 1] == MINUS then p + 2 else p + 1, hi, mem', hi', CH_E, 0);
    } else if IsDigit(mem[p]) {
      ScanLocal(mem, p, hi, mem', hi', CH_COLON, 0);
    }
  }

  // Reading what the emitter wrote.

  /** Multiplying by the wrapped -1 negates modulo 2^64. */
  lemma NegateWraps(m: nat)
    ensures ToSigned64(m % U64 * (U64 - 1) % U64) == Wrap64(0 - m)
  {
    var u := m % U64;
    assert u * (U64 - 1) == u * U64 + (0 - u);
    ModAdd(0 - u, u);
    assert 0 - m == (0 - m / U64) * U64 + (0 - u);
    ModAdd(0 - u, 0 - m / U64);
  }

  lemma FirstByte(mem: Bytes, p: nat, b: Byte, rest: Bytes)
    requires At(mem, p, [b] + rest)
    ensures mem[p] == b && At(mem, p + 1, rest)
  {
    AtSplit(mem, p, [b], rest);
    assert mem[p] == mem[p..p + 1][0];
  }

  lemma NonNegativeRoundTrip(mem: Bytes, p: nat, hi: nat, m: nat)
    requires hi <= |mem|
    requires At(mem, p, [CH_I] + (Numeral(m) + [CH_E])) && p + |Numeral(m)| + 2 <= hi
    ensures Next(mem, p, hi) == Step(BInt(Wrap64(m)), p + |Numeral(m)| + 2)
  {
    FirstByte(mem, p, CH_I, Numeral(m) + [CH_E]);
    NumeralIsCanonical(m);
    assert mem[p + 1] == mem[p + 1..p + 2 + |Numeral(m)|][0] == Numeral(m)[0];
    ScanNumeral(mem, p + 1, hi, CH_E, m);
  }

  lemma NegativeRoundTrip(mem: Bytes, p: nat, hi: nat, m: nat)
    requires hi <= |mem|
    requires At(mem, p, [CH_I] + ([MINUS] + (Numeral(m) + [CH_E]))) && p + |Numeral(m)| + 3 <= hi
    ensures Next(mem, p, hi) == Step(BInt(Wrap64(0 - m)), p + |Numeral(m)| + 3)
  {
    FirstByte(mem, p, CH_I, [MINUS] + (Numeral(m) + [CH_E]));
    FirstByte(mem, p + 1, MINUS, Numeral(m) + [CH_E]);
    ScanNumeral(mem, p + 2, hi, CH_E, m);
    NegateWraps(m);
  }

  /**
   * Sign and magnitude through wrapping arithmetic read the decimal text of any integer as that
   * integer reduced to 64 bits; over the full 64-bit range this inverts "%lld".
   */
  lemma IntegerRoundTrip(mem: Bytes, p: nat, hi: nat, i: int)
    requires hi <= |mem| && At(mem, p, EncodeInteger(i)) && p + |EncodeInteger(i)| <= hi
    ensures Next(mem, p, hi) == Step(BInt(Wrap64(i)), p + |EncodeInteger(i)|)
    ensures Wrap64(i) == i <==> INT64_MIN <= i <= INT64_MAX
  {
    hide Next, At, Numeral;
    if i < 0 {
      var m: nat := -i;
      assert EncodeInteger(i) == [CH_I] + ([MINUS] + (Numeral(m) + [CH_E]));
      NegativeRoundTrip(mem, p, hi, m);
    } else {
      assert EncodeInteger(i) == [CH_I] + (Numeral(i) + [CH_E]);
      NonNegativeRoundTrip(mem, p, hi, i);
    }
  }

  /** The length prefix is read exactly; the payload may lie beyond the emitted bytes. */
  lemma TextPrefix(mem: Bytes, p: nat, hi: nat, s: Bytes)
    requires SizedText(s) && hi <= |mem|
    requires At(mem, p, Numeral(|s|) + [CH_COLON]) && p + |Numeral(|s|)| + 1 <= hi
    ensures var q := p + |Numeral(|s|)| + 1;
            Next(mem, p, hi) ==
            if |s| > hi - q then Step(ErrStringTooLong(|s|), p) else Step(BString(q, |s|), q + |s|)
  {
    hide ScanUint, Numeral, NextInt;
    var n := Numeral(|s|);
    NumeralIsCanonical(|s|);
    assert mem[p] == mem[p..p + |n + [CH_COLON]|][0] == n[0];
    ScanNumeral(mem, p, hi, CH_COLON, |s|);
  }

  lemma TextRoundTrip(mem: Bytes, p: nat, hi: nat, s: Bytes)
    requires SizedText(s) && HoldsText(mem, p, hi, s)
    ensures var q := p + |EncodeText(s)|;
            Next(mem, p, hi) == Step(BString(q - |s|, |s|), q) && mem[q - |s|..q] == s
  {
    AtSplit(mem, p, Numeral(|s|) + [CH_COLON], s);
    TextPrefix(mem, p, hi, s);
  }

  /** The parts of an encoded container in memory. */
  lemma ContainerAt(mem: Bytes, p: nat, open: Byte, body: Bytes)
    requires At(mem, p, [open] + body + [CH_E])
    ensures mem[p] == open && At(mem, p + 1, body) && mem[p + 1 + |body|] == CH_E
  {
    AtSplit(mem, p, [open] + body, [CH_E]);
    AtSplit(mem, p, [open], body);
    assert mem[p] == mem[p..p + 1][0];
    var q := p + 1 + |body|;
    assert mem[q] == mem[q..q + 1][0];
  }

  predicate HoldsText(mem: Bytes, p: nat, hi: nat, s: Bytes) {
    hi <= |mem| && At(mem, p, EncodeText(s)) && p + |EncodeText(s)| <= hi
  }

  /** Where the encoding of t ends when it starts at p, and that it is there. */
  predicate Holds(mem: Bytes, p: nat, hi: nat, t: Tree) {
    hi <= |mem| && At(mem, p, Encode(t)) && p + |Encode(t)| <= hi
  }

  /** The children of a container with body at p, followed by its end marker. */
  predicate HoldsItems(mem: Bytes, p: nat, hi: nat, ts: seq<Tree>) {
    hi <= |mem| && At(mem, p, EncodeItems(ts)) && p + |EncodeItems(ts)| < hi && mem[p + |EncodeItems(ts)|] == CH_E
  }

  predicate HoldsEntries(mem: Bytes, p: nat, hi: nat, es: seq<Entry>) {
    hi <= |mem| && At(mem, p, EncodeEntries(es)) && p + |EncodeEntries(es)| < hi && mem[p + |EncodeEntries(es)|] == CH_E
  }

  lemma IntegerAt(mem: Bytes, p: nat, hi: nat, t: Tree)
    requires t.Integer? && Holds(mem, p, hi, t)
    ensures Next(mem, p, hi) == Step(BInt(Wrap64(t.i)), p + |Encode(t)|)
    ensures Emittable(t) ==> Wrap64(t.i) == t.i
  {
    IntegerRoundTrip(mem, p, hi, t.i);
  }

  lemma TextAt(mem: Bytes, p: nat, hi: nat, t: Tree)
    requires t.Text? && Sized(t) && Holds(mem, p, hi, t)
    ensures var q, n := p + |Encode(t)|, |t.bytes|;
            n <= q <= hi <= |mem| && Next(mem, p, hi) == Step(BString(q - n, n), q) && mem[q - n..q] == t.bytes
  {
    TextRoundTrip(mem, p, hi, t.bytes);
  }

  lemma ListAt(mem: Bytes, p: nat, hi: nat, t: Tree)
    requires t.List? && Holds(mem, p, hi, t)
    ensures Next(mem, p, hi) == Step(BList(Span(p + 1, hi - (p + 1))), p + 1)
    ensures HoldsItems(mem, p + 1, hi, t.items)
    ensures |Encode(t)| == |EncodeItems(t.items)| + 2
  {
    ContainerAt(mem, p, CH_L, EncodeItems(t.items));
  }

  lemma DictAt(mem: Bytes, p: nat, hi: nat, t: Tree)
    requires t.Dict? && Holds(mem, p, hi, t)
    ensures Next(mem, p, hi) == Step(BDict(Span(p + 1, hi - (p + 1))), p + 1)
    ensures HoldsEntries(mem, p + 1, hi, t.entries)
    ensures |Encode(t)| == |EncodeEntries(t.entries)| + 2
  {
    ContainerAt(mem, p, CH_D, EncodeEntries(t.entries));
  }

  lemma ItemsAt(mem: Bytes, p: nat, hi: nat, ts: seq<Tree>)
    requires ts != [] && HoldsItems(mem, p, hi, ts)
    ensures |EncodeItems(ts)| == |Encode(ts[0])| + |EncodeItems(ts[1..])|
    ensures hi <= |mem| && Holds(mem, p, hi, ts[0])
    ensures HoldsItems(mem, p + |Encode(ts[0])|, hi, ts[1..])
  {
    hide At, Encode, Next;
    AtSplit(mem, p, Encode(ts[0]), EncodeItems(ts[1..]));
  }

  lemma NoItemsAt(mem: Bytes, p: nat, hi: nat)
    requires HoldsItems(mem, p, hi, [])
    ensures |EncodeItems([])| == 0 && p < hi <= |mem| && Next(mem, p, hi) == Step(BEnd, p + 1)
  {
  }

  lemma NoEntriesAt(mem: Bytes, p: nat, hi: nat)
    requires HoldsEntries(mem, p, hi, [])
    ensures |EncodeEntries([])| == 0 && p < hi <= |mem| && Next(mem, p, hi) == Step(BEnd, p + 1)
  {
  }

  lemma EntriesParts(mem: Bytes, p: nat, es: seq<Entry>)
    requires es != [] && At(mem, p, EncodeEntries(es))
    ensures var k, v, r := EncodeText(es[0].key), Encode(es[0].val), EncodeEntries(es[1..]);
            && |EncodeEntries(es)| == |k| + |v| + |r|
            && At(mem, p, k) && At(mem, p + |k|, v) && At(mem, p + |k| + |v|, r)
  {
    hide At, Encode, EncodeText;
    AtSplit3(mem, p, EncodeText(es[0].key), Encode(es[0].val), EncodeEntries(es[1..]));
  }

  lemma EntriesAt(mem: Bytes, p: nat, hi: nat, es: seq<Entry>)
    requires es != [] && HoldsEntries(mem, p, hi, es)
    ensures var k, v := |EncodeText(es[0].key)|, |Encode(es[0].val)|;
            && |EncodeEntries(es)| == k + v + |EncodeEntries(es[1..])|
            && hi <= |mem| && HoldsText(mem, p, hi, es[0].key)
            && Holds(mem, p + k, hi, es[0].val)
            && HoldsEntries(mem, p + k + v, hi, es[1..])
  {
    hide At, Encode, EncodeText, EncodeEntries;
    EntriesParts(mem, p, es);
  }
}

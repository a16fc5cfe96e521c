/**
 * Both tokenizers, and the codes the skipper and the iterators fail with, as tables over the bytes
 * themselves: characters and decimal constants only, no digit loop and none of the names the model
 * shares between its writers and its readers.
 */
module TokenTable {
  import opened ByteString
  import opened Numerals
  import opened BencodeText
  import opened BenrToken
  import opened BenrSkip
  import opened BenrIter
  import opened Benp

  /** Where the run of digits from p on ends. */
  function RunEnd(mem: Bytes, p: nat, hi: nat): (q: nat)
    requires p <= hi <= |mem|
    ensures p <= q <= hi && (q < hi ==> !DigitByte(mem[q]))
    ensures forall i :: p <= i < q ==> DigitByte(mem[i])
    decreases hi - p
  {
    if p < hi && DigitByte(mem[p]) then RunEnd(mem, p + 1, hi) else p
  }

  /** y is x reduced to 64 bits in two's complement. */
  predicate Reduced(x: int, y: int) {
    -9223372036854775808 <= y <= 9223372036854775807 && (x - y) % 18446744073709551616 == 0
  }

  // The digit loop.

  lemma ScanIsRun(mem: Bytes, p: nat, hi: nat, end: Byte)
    requires p <= hi <= |mem| && !DigitByte(end)
    ensures var q := RunEnd(mem, p, hi);
            ScanUint(mem, p, hi, end, 0) ==
            if q == hi then RanOut
            else if mem[q] == end then Found(RunValue(mem, p, q) % 18446744073709551616, q + 1)
            else BadByte(q)
  {
    hide Decimal, RunEnd, RunValue;
    var q := RunEnd(mem, p, hi);
    RunIsDecimal(mem, p, q);
    ScanDigits(mem, p, q, hi, end, 0);
  }

  lemma SignedValue(v: nat, neg: bool)
    ensures var u := v % 18446744073709551616;
            Reduced(if neg then 0 - v else v, ToSigned64(if neg then u * (U64 - 1) % U64 else u))
  {
    if neg {
      NegateWraps(v);
      Reduces(0 - v);
    } else {
      Reduces(v);
    }
  }

  lemma Reduces(x: int)
    ensures Reduced(x, Wrap64(x))
  {
    var r := x % U64;
    assert x - r == x / U64 * U64;
    ModAdd(0, x / U64);
    ModAdd(0, x / U64 + 1);
  }

  // benr_next.

  /** benr_next at p, with hi - p bytes left, reports b and leaves the cursor at next. */
  predicate TokenIs(mem: Bytes, p: nat, hi: nat, b: Benr, next: nat)
    requires p <= hi <= |mem|
  {
    if p == hi then b == BNone && next == p
    else if mem[p] == 'd' as int then b == BDict(Span(p + 1, hi - p - 1)) && next == p + 1
    else if mem[p] == 'l' as int then b == BList(Span(p + 1, hi - p - 1)) && next == p + 1
    else if mem[p] == 'e' as int then b == BEnd && next == p + 1
    else if mem[p] == 'i' as int then
      if p + 1 == hi then b == ErrUnexpectedEof && next == p
      else
        var neg := mem[p + 1] == '-' as int;
        var from := if neg then p + 2 else p + 1;
        var q := RunEnd(mem, from, hi);
        if q == hi then b == ErrUnexpectedEofInInt && next == p
        else if mem[q] != 'e' as int then b == ErrUnexpectedByteInInt(q) && next == p
        else
          var v := RunValue(mem, from, q);
          b.BInt? && Reduced(if neg then 0 - v else v, b.i) && next == q + 1
    else if DigitByte(mem[p]) then
      var q := RunEnd(mem, p, hi);
      if q == hi then b == ErrUnexpectedEofInInt && next == p
      else if mem[q] != ':' as int then b == ErrUnexpectedByteInInt(q) && next == p
      else
        var n := RunValue(mem, p, q) % 18446744073709551616;
        if q + 1 + n > hi then b == ErrStringTooLong(n) && next == p
        else b == BString(q + 1, n) && next == q + 1 + n
    else b == ErrUnexpectedByte(p) && next == p
  }

  lemma NextIntTable(mem: Bytes, p: nat, hi: nat)
    requires p < hi <= |mem| && mem[p] == 'i' as int
    ensures TokenIs(mem, p, hi, NextInt(mem, p, hi).b, NextInt(mem, p, hi).next)
  {
    hide RunEnd, RunValue, ScanUint, Reduced, ToSigned64;
    if p + 1 < hi {
      var neg := mem[p + 1] == '-' as int;
      var from := if neg then p + 2 else p + 1;
      ScanIsRun(mem, from, hi, 'e' as int);
      var q := RunEnd(mem, from, hi);
      SignedValue(RunValue(mem, from, q), neg);
    }
  }

  lemma NextStringTable(mem: Bytes, p: nat, hi: nat)
    requires p < hi <= |mem| && DigitByte(mem[p])
    ensures TokenIs(mem, p, hi, NextString(mem, p, hi).b, NextString(mem, p, hi).next)
  {
    hide RunEnd, RunValue, ScanUint;
    ScanIsRun(mem, p, hi, ':' as int);
  }

  /** On every input benr_next does what the table says. */
  lemma {:induction false} NextByTable(mem: Bytes, p: nat, hi: nat)
    requires p <= hi <= |mem|
    ensures TokenIs(mem, p, hi, Next(mem, p, hi).b, Next(mem, p, hi).next)
  {
    hide RunEnd, RunValue, Reduced, NextInt, NextString;
    if p < hi {
      if mem[p] == 'i' as int { NextIntTable(mem, p, hi); }
      if DigitByte(mem[p]) { NextStringTable(mem, p, hi); }
    }
  }

  // benp_next.

  /** benp_next at p, with hi - p bytes left, reports e and leaves the cursor at next. */
  predicate EventIs(mem: Bytes, p: nat, hi: nat, e: Event, next: nat)
    requires p <= hi <= |mem|
  {
    if p == hi then e == EvDone && next == p
    else if mem[p] == 'd' as int then e == EvDictStart && next == p + 1
    else if mem[p] == 'l' as int then e == EvListStart && next == p + 1
    else if mem[p] == 'e' as int then e == EvXEnd && next == p + 1
    else if mem[p] == 'i' as int then
      if p + 1 == hi then e == EvErrorUnexpectedEof && next == p
      else
        var neg := mem[p + 1] == '-' as int;
        var from := if neg then p + 2 else p + 1;
        var q := RunEnd(mem, from, hi);
        if q == hi then e == EvErrorUnexpectedEof && next == p
        else if mem[q] != 'e' as int then e == EvErrorUnexpectedByteInInt(q) && next == p
        else
          var v := RunValue(mem, from, q);
          e.EvInteger? && Reduced(if neg then 0 - v else v, e.i) && next == q + 1
    else if DigitByte(mem[p]) then
      var q := RunEnd(mem, p, hi);
      if q == hi then e == EvErrorUnexpectedEof && next == p
      else if mem[q] != ':' as int then e == EvErrorUnexpectedByteInInt(q) && next == p
      else
        var n := RunValue(mem, p, q) % 18446744073709551616;
        if q + 1 + n > hi then e == EvErrorStringTooLong(n) && next == p
        else e == EvString(q + 1, n) && next == q + 1 + n
    else e == EvErrorUnexpectedByte(p) && next == p
  }

  /** On every input benp_next does what its table says. */
  lemma {:induction false} NextEventByTable(mem: Bytes, p: nat, hi: nat)
    requires p <= hi <= |mem|
    ensures EventIs(mem, p, hi, NextEvent(mem, p, hi).e, NextEvent(mem, p, hi).next)
  {
    hide RunEnd, RunValue, Reduced, Next, NextEvent;
    NextByTable(mem, p, hi);
    SameToken(mem, p, hi);
  }

  /** The table leaves nothing open. */
  lemma {:induction false} TableIsExact(mem: Bytes, p: nat, hi: nat, b: Benr, next: nat)
    requires p <= hi <= |mem|
    ensures TokenIs(mem, p, hi, b, next) <==> Next(mem, p, hi) == Step(b, next)
  {
    hide RunEnd, RunValue, Reduced, Next;
    NextByTable(mem, p, hi);
    if TokenIs(mem, p, hi, b, next) && b.BInt? {
      var neg := mem[p + 1] == '-' as int;
      var from := if neg then p + 2 else p + 1;
      var v: int := RunValue(mem, from, RunEnd(mem, from, hi));
      OneReduction(if neg then 0 - v else v, b.i, Next(mem, p, hi).b.i);
    }
  }

  lemma OneReduction(x: int, y: int, y': int)
    requires Reduced(x, y) && Reduced(x, y')
    ensures y == y'
  {
  }

  // Known texts.

  lemma {:induction false} RunInText(mem: Bytes, p: nat, hi: nat, ds: Bytes)
    requires p + |ds| <= hi <= |mem| && mem[p..p + |ds|] == ds
    requires (forall i :: 0 <= i < |ds| ==> DigitByte(ds[i])) && (p + |ds| < hi ==> !DigitByte(mem[p + |ds|]))
    ensures RunEnd(mem, p, hi) == p + |ds|
    ensures RunValue(mem, p, p + |ds|) == RunValue(ds, 0, |ds|)
  {
    hide RunEnd, RunValue, Decimal;
    assert forall i :: p <= i < p + |ds| ==> mem[i] == ds[i - p];
    RunIsDecimal(mem, p, p + |ds|);
    RunIsDecimal(ds, 0, |ds|);
    assert ds[0..|ds|] == ds;
  }

  /** The parts of an integer's text. */
  function IntegerChars(neg: bool, ds: Bytes): Bytes {
    Ascii("i") + (if neg then Ascii("-") else []) + ds + Ascii("e")
  }

  lemma IntegerParts(mem: Bytes, p: nat, hi: nat, neg: bool, ds: Bytes)
    requires forall i :: 0 <= i < |ds| ==> DigitByte(ds[i])
    requires p + |IntegerChars(neg, ds)| <= hi <= |mem| && mem[p..p + |IntegerChars(neg, ds)|] == IntegerChars(neg, ds)
    ensures var from := if neg then p + 2 else p + 1;
            && from + |ds| + 1 == p + |IntegerChars(neg, ds)| && mem[p] == 'i' as int
            && (mem[p + 1] == '-' as int <==> neg) && mem[from + |ds|] == 'e' as int
            && mem[from..from + |ds|] == ds
  {
    var text, d := IntegerChars(neg, ds), if neg then 2 else 1;
    assert text[d..d + |ds|] == ds && text[d + |ds|] == 'e' as int;
    Piece(mem, p, text, 0, 1);
    Piece(mem, p, text, 1, 2);
    Piece(mem, p, text, d, d + |ds|);
    Piece(mem, p, text, d + |ds|, d + |ds| + 1);
    if !neg && ds != [] { assert text[1] == ds[0] && DigitByte(ds[0]); }
  }

  /** Both tokenizers read i, an optional minus sign, any digits and e as that number reduced to 64 bits. */
  lemma {:induction false} ReadsInteger(mem: Bytes, p: nat, hi: nat, neg: bool, ds: Bytes)
    requires forall i :: 0 <= i < |ds| ==> DigitByte(ds[i])
    requires p + |IntegerChars(neg, ds)| <= hi <= |mem| && mem[p..p + |IntegerChars(neg, ds)|] == IntegerChars(neg, ds)
    ensures var q, v := p + |IntegerChars(neg, ds)|, RunValue(ds, 0, |ds|);
            var s, e := Next(mem, p, hi), NextEvent(mem, p, hi);
            && s.b.BInt? && Reduced(if neg then 0 - v else v, s.b.i) && s.next == q
            && e.e == EvInteger(s.b.i) && e.next == q
  {
    hide RunEnd, RunValue, Reduced, Next, NextEvent, IntegerChars;
    IntegerParts(mem, p, hi, neg, ds);
    RunInText(mem, if neg then p + 2 else p + 1, hi, ds);
    NextByTable(mem, p, hi);
    SameToken(mem, p, hi);
  }

  /** And an l as the opening of a list, a d as that of a dictionary, an e as an end. */
  lemma {:induction false} ReadsMarker(mem: Bytes, p: nat, hi: nat)
    requires p < hi <= |mem|
    ensures mem[p..p + 1] == Ascii("l") ==>
              Next(mem, p, hi) == Step(BList(Span(p + 1, hi - p - 1)), p + 1)
              && NextEvent(mem, p, hi) == EvStep(EvListStart, p + 1)
    ensures mem[p..p + 1] == Ascii("d") ==>
              Next(mem, p, hi) == Step(BDict(Span(p + 1, hi - p - 1)), p + 1)
              && NextEvent(mem, p, hi) == EvStep(EvDictStart, p + 1)
    ensures mem[p..p + 1] == Ascii("e") ==>
              Next(mem, p, hi) == Step(BEnd, p + 1) && NextEvent(mem, p, hi) == EvStep(EvXEnd, p + 1)
  {
    hide RunEnd, RunValue, Reduced, Next, NextEvent;
    assert mem[p..p + 1][0] == mem[p];
    NextByTable(mem, p, hi);
    NextEventByTable(mem, p, hi);
  }

  /** One of the texts of benr-api-test.c. */
  lemma KnownInteger()
    ensures var mem := Ascii("i-42561e"); |mem| == 8 && Next(mem, 0, 8) == Step(BInt(-42561), 8)
  {
    hide Next, NextEvent;
    var ds := Ascii("42561");
    assert Ascii("i-42561e") == Ascii("i") + Ascii("-") + ds + Ascii("e");
    ReadsInteger(Ascii("i-42561e"), 0, 8, true, ds);
    assert RunValue(ds, 0, 1) == 4;
    assert RunValue(ds, 0, 3) == 425;
    assert RunValue(ds, 0, 5) == 42561;
    OneReduction(-42561, -42561, Next(Ascii("i-42561e"), 0, 8).b.i);
  }

  // Codes.

  /** enum benr_kind. */
  lemma KindCodes(loc: nat, c: Span, i: int)
    ensures KindCode(BNone) == 0 && KindCode(BString(c.start, c.len)) == 1 && KindCode(BInt(i)) == 2
    ensures KindCode(BDict(c)) == 3 && KindCode(BList(c)) == 4 && KindCode(BUint(loc)) == 5 && KindCode(BEnd) == 6
    ensures KindCode(ErrUnexpectedByte(loc)) == 7 && KindCode(ErrUnexpectedEof) == 8
    ensures KindCode(ErrUnexpectedByteInInt(loc)) == 9 && KindCode(ErrUnexpectedEofInInt) == 10
    ensures KindCode(ErrStringTooLong(loc)) == 11 && KindCode(ErrKeyIsNotString) == 12
  {
  }

  /** The code with which the skipper gives up at q, where no token can be taken. */
  function CodeAt(mem: Bytes, q: nat, hi: nat): int
    requires q <= hi <= |mem|
  {
    if q == hi then -8
    else if mem[q] == 'i' as int then
      if q + 1 == hi then -8
      else if RunEnd(mem, if mem[q + 1] == '-' as int then q + 2 else q + 1, hi) == hi then -10
      else -9
    else if DigitByte(mem[q]) then
      var end := RunEnd(mem, q, hi);
      if end == hi then -10 else if mem[end] != ':' as int then -9 else -11
    else -7
  }

  lemma StuckCode(mem: Bytes, q: nat, hi: nat)
    requires q <= hi <= |mem| && !Advances(Next(mem, q, hi).b)
    ensures FailureCode(Next(mem, q, hi).b) == CodeAt(mem, q, hi)
  {
    hide RunEnd, RunValue, Reduced, Next;
    NextByTable(mem, q, hi);
  }

  /** The bytes up to q are tokens that leave the container open, and at q there is none. */
  ghost predicate StuckOpen(mem: Bytes, p: nat, hi: nat, ts: seq<Benr>, q: nat)
    requires p <= hi <= |mem|
  {
    Tokenizes(mem, p, hi, ts, q) && StaysOpen(ts, 1) && q <= hi && !Advances(Next(mem, q, hi).b)
  }

  /** The skipper fails with a code if and only if it is the one for the bytes it gets stuck at. */
  lemma {:induction false} SkipFailsWith(mem: Bytes, p: nat, hi: nat, code: int)
    requires p <= hi <= |mem|
    ensures Skip(mem, p, hi) == Failed(code) <==>
            exists ts, q :: StuckOpen(mem, p, hi, ts, q) && code == CodeAt(mem, q, hi)
  {
    hide Skip, Next, Tokenizes, StaysOpen, CodeAt, FailureCode;
    SkipFailsIffStuck(mem, p, hi, code);
    if Skip(mem, p, hi) == Failed(code) {
      var ts, q :| GetsStuck(mem, p, hi, 1, ts, q, code);
      StuckCode(mem, q, hi);
      assert StuckOpen(mem, p, hi, ts, q);
    }
    if exists ts, q :: StuckOpen(mem, p, hi, ts, q) && code == CodeAt(mem, q, hi) {
      var ts, q :| StuckOpen(mem, p, hi, ts, q) && code == CodeAt(mem, q, hi);
      StuckCode(mem, q, hi);
      assert GetsStuck(mem, p, hi, 1, ts, q, code);
    }
  }

  /** What a list iterator returns and leaves behind when it hands no item out. */
  lemma {:induction false} ListStops(mem: Bytes, p: nat, hi: nat, code: int, c: Span)
    requires p <= hi <= |mem|
    ensures ListNext(mem, p, hi) == Stop(code, c) <==>
            && p < hi && c.start == p + 1
            && if mem[p] == 'e' as int then code == -1 && c.len == 0
               else (mem[p] == 'd' as int || mem[p] == 'l' as int)
                    && Skip(mem, p + 1, hi) == Failed(code) && c.len == hi - p - 1
  {
    hide Skip, RunEnd, RunValue, Reduced, Next;
    NextByTable(mem, p, hi);
  }

  /** The same for a dict iterator: the end may stand for a key or for a value. */
  lemma {:induction false} DictStops(mem: Bytes, p: nat, hi: nat, code: int, c: Span)
    requires p <= hi <= |mem|
    ensures DictNext(mem, p, hi) == DictStop(code, c) <==>
            if p < hi && mem[p] == 'e' as int then code == -1 && c == Span(p + 1, 0)
            else ListNext(mem, Next(mem, p, hi).next, hi) == Stop(code, c)
  {
    hide Skip, RunEnd, RunValue, Reduced, Next, ListNext, DictNext;
    NextByTable(mem, p, hi);
    DictNextByList(mem, p, hi);
  }

  // benr_init.

  /** benr_init reports the first token, but never the end marker, which is no value. */
  lemma {:induction false} InitByTable(mem: Bytes, p: nat, hi: nat)
    requires p <= hi <= |mem|
    ensures !Init(mem, p, hi).BEnd? && !Init(mem, p, hi).BUint?
    ensures if p < hi && mem[p] == 'e' as int then Init(mem, p, hi) == ErrUnexpectedByte(p)
            else exists next :: TokenIs(mem, p, hi, Init(mem, p, hi), next)
  {
    hide TokenIs, Next;
    NextByTable(mem, p, hi);
  }
}

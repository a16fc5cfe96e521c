/** When writing a token back with ben.h reproduces the bytes benr_next read it from. */
module BenrReemit {
  import opened ByteString
  import opened Numerals
  import opened BencodeTree
  import opened BenrToken

  /** Where the digits of an integer token begin. */
  function DigitsFrom(s: Bytes): nat { if |s| > 1 && s[1] == MINUS then 2 else 1 }

  /** The text of an integer token that "i%llde" could have written. */
  predicate CanonicalInteger(s: Bytes) {
    var d := DigitsFrom(s);
    && |s| > d && CanonicalDigits(s[d..|s| - 1])
    && var v := Decimal(0, s[d..|s| - 1]);
      if d == 2 then 0 < v <= INT64_MAX + 1 else v <= INT64_MAX
  }

  /** The digits an integer token spans, and what they were read as. */
  lemma IntegerDigits(mem: Bytes, p: nat, hi: nat)
    requires p <= hi <= |mem| && Next(mem, p, hi).b.BInt?
    ensures p + 1 < hi && mem[p] == CH_I
    ensures var from, q := if mem[p + 1] == MINUS then p + 2 else p + 1, Next(mem, p, hi).next;
            && from < q && AllDigits(mem[from..q - 1]) && mem[q - 1] == CH_E
            && var u := Decimal(0, mem[from..q - 1]) % U64;
              Next(mem, p, hi).b.i == ToSigned64(if from == p + 2 then u * (U64 - 1) % U64 else u)
  {
    hide Decimal;
    var from := if mem[p + 1] == MINUS then p + 2 else p + 1;
    var r := ScanUint(mem, from, hi, CH_E, 0);
    ScanUintMeaning(mem, from, hi, CH_E, r.v, r.next);
  }

  /** The same, in terms of the token's text. */
  lemma IntegerToken(mem: Bytes, p: nat, hi: nat)
    requires p <= hi <= |mem| && Next(mem, p, hi).b.BInt?
    ensures var s := mem[p..Next(mem, p, hi).next];
            var d := DigitsFrom(s);
            && |s| > d && s == s[..d] + s[d..|s| - 1] + [CH_E]
            && (d == 1 ==> s[..d] == [CH_I]) && (d == 2 ==> s[..d] == [CH_I, MINUS])
            && AllDigits(s[d..|s| - 1])
            && var u := Decimal(0, s[d..|s| - 1]) % U64;
              Next(mem, p, hi).b.i == ToSigned64(if d == 2 then u * (U64 - 1) % U64 else u)
  {
    hide Next, Decimal, AllDigits, ToSigned64;
    IntegerDigits(mem, p, hi);
    var q := Next(mem, p, hi).next;
    var s := mem[p..q];
    var d := if mem[p + 1] == MINUS then 2 else 1;
    var k := |s| - 1;
    Piece(mem, p, s, 0, 1);
    Piece(mem, p, s, 1, 2);
    Piece(mem, p, s, d, k);
    Piece(mem, p, s, k, k + 1);
    Ends(s, d);
  }

  lemma Ends(s: Bytes, d: nat)
    requires d < |s|
    ensures s == s[..d] + s[d..|s| - 1] + [s[|s| - 1]]
    ensures d == 1 ==> s[..d] == [s[0]]
    ensures d == 2 ==> s[..d] == [s[0], s[1]]
  {
  }

  lemma SignedNumeralParts(i: int)
    requires INT64_MIN <= i <= INT64_MAX
    ensures CanonicalInteger(EncodeInteger(i))
    ensures var s := EncodeInteger(i);
            var d := DigitsFrom(s);
            d == (if i < 0 then 2 else 1) && s[d..|s| - 1] == Numeral(if i < 0 then -i else i)
  {
    hide Numeral, Decimal;
    var m: nat := if i < 0 then -i else i;
    NumeralIsCanonical(m);
    DecimalOfNumeral(m);
    var s := EncodeInteger(i);
    var d := DigitsFrom(s);
    assert SignedNumeral(i)[0] == if i < 0 then MINUS else Numeral(m)[0];
    assert s[d..|s| - 1] == Numeral(m);
  }

  /** s is the text of an integer token and v the number its digits are. */
  predicate IntegerText(s: Bytes, v: nat) {
    var d := DigitsFrom(s);
    && |s| > d && AllDigits(s[d..|s| - 1]) && v == Decimal(0, s[d..|s| - 1])
    && s == s[..d] + s[d..|s| - 1] + [CH_E] && s[..d] == if d == 2 then [CH_I, MINUS] else [CH_I]
  }

  lemma CanonicalPrints(s: Bytes, v: nat)
    requires IntegerText(s, v) && CanonicalInteger(s)
    ensures EncodeInteger(if DigitsFrom(s) == 2 then 0 - v else v) == s
  {
    hide Decimal, Numeral, CanonicalDigits;
    NumeralOfDecimal(s[DigitsFrom(s)..|s| - 1]);
    assert SignedNumeral(0 - v) == if v > 0 then [MINUS] + Numeral(v) else Numeral(0);
  }

  /** ben_integer reproduces an integer token exactly when its text was canonical and in range. */
  lemma ReemitInteger(mem: Bytes, p: nat, hi: nat)
    requires p <= hi <= |mem| && Next(mem, p, hi).b.BInt?
    ensures INT64_MIN <= Next(mem, p, hi).b.i <= INT64_MAX
    ensures EncodeInteger(Next(mem, p, hi).b.i) == mem[p..Next(mem, p, hi).next]
            <==> CanonicalInteger(mem[p..Next(mem, p, hi).next])
  {
    hide Next, Decimal, EncodeInteger, CanonicalDigits, AllDigits;
    IntegerToken(mem, p, hi);
    var i := Next(mem, p, hi).b.i;
    var s := mem[p..Next(mem, p, hi).next];
    var d := DigitsFrom(s);
    var v := Decimal(0, s[d..|s| - 1]);
    if CanonicalInteger(s) {
      CanonicalPrints(s, v);
      if d == 2 { NegateWraps(v); }
    }
    if EncodeInteger(i) == s { SignedNumeralParts(i); }
  }

  /** ben_string reproduces a string token exactly when its length was canonical and its payload has no zero byte. */
  lemma ReemitString(mem: Bytes, p: nat, hi: nat)
    requires p <= hi <= |mem| && Next(mem, p, hi).b.BString? && Next(mem, p, hi).b.len <= INT_MAX
    ensures var b := Next(mem, p, hi).b;
            var digits, payload := mem[p..b.start - 1], mem[b.start..b.start + b.len];
            && AllDigits(digits)
            && (EmittedText(payload) == mem[p..Next(mem, p, hi).next]
                <==> CanonicalDigits(digits) && Decimal(0, digits) < U64 && NulFreeText(payload))
  {
    hide Next, Decimal, Numeral, CanonicalDigits;
    var b := Next(mem, p, hi).b;
    var digits, payload := mem[p..b.start - 1], mem[b.start..b.start + b.len];
    var text := mem[p..b.start + b.len];
    StringDigits(mem, p, hi);
    assert text == digits + [CH_COLON] + payload;
    NumeralOfDecimal(digits);
    CStringPrefix(payload);
    if EmittedText(payload) == text {
      NumeralIsCanonical(b.len);
      DecimalOfNumeral(b.len);
      CanonicalMeansDigits(Numeral(b.len));
      SamePrefix(Numeral(b.len), CString(payload), digits, payload);
    }
  }

  lemma CanonicalMeansDigits(s: Bytes)
    requires CanonicalDigits(s)
    ensures AllDigits(s)
  {
  }

  /** The digits a string token spans, and the length they were read as. */
  lemma StringDigits(mem: Bytes, p: nat, hi: nat)
    requires p <= hi <= |mem| && Next(mem, p, hi).b.BString?
    ensures var b := Next(mem, p, hi).b;
            && AllDigits(mem[p..b.start - 1]) && mem[b.start - 1] == CH_COLON
            && b.len == Decimal(0, mem[p..b.start - 1]) % U64
  {
    hide Decimal;
    var r := ScanUint(mem, p, hi, CH_COLON, 0);
    ScanUintMeaning(mem, p, hi, CH_COLON, r.v, r.next);
  }
}

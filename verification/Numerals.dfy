/** Decimal numerals, as printf writes them and as the digit loops of benr.c and benp.c read them. */
module Numerals {
  import opened ByteString

  const ZERO: Byte := 48
  const MINUS: Byte := 45

  predicate IsDigit(b: Byte) { ZERO <= b <= ZERO + 9 }

  predicate AllDigits(s: Bytes) { forall i :: 0 <= i < |s| ==> IsDigit(s[i]) }

  /** The digits "%zu" and "%lld" write for a magnitude. */
  function Numeral(n: nat): Bytes {
    if n < 10 then [ZERO + n] else Numeral(n / 10) + [ZERO + n % 10]
  }

  /** The text "%lld" writes. */
  function SignedNumeral(v: int): Bytes {
    if v < 0 then [MINUS] + Numeral(-v) else Numeral(v)
  }

  /** The number whose decimal digits are those of v followed by s. */
  function Decimal(v: nat, s: Bytes): nat
    requires AllDigits(s)
    decreases |s|
  {
    if s == [] then v else Decimal(v * 10 + (s[0] - ZERO), s[1..])
  }

  /** Digits that printf could have written: at least one, and no redundant leading zero. */
  predicate CanonicalDigits(s: Bytes) {
    |s| > 0 && AllDigits(s) && (s[0] == ZERO ==> |s| == 1)
  }

  lemma {:induction false} NumeralIsCanonical(n: nat)
    ensures CanonicalDigits(Numeral(n))
    ensures Numeral(n)[0] == ZERO <==> n == 0
  {
    if n >= 10 { NumeralIsCanonical(n / 10); }
  }

  lemma {:induction false} DecimalSnoc(v: nat, s: Bytes, d: Byte)
    requires AllDigits(s) && IsDigit(d)
    ensures AllDigits(s + [d])
    ensures Decimal(v, s + [d]) == Decimal(v, s) * 10 + (d - ZERO)
    decreases |s|
  {
    if s == [] {
      assert s + [d] == [d];
      assert [d][1..] == [];
      assert Decimal(v * 10 + (d - ZERO), []) == v * 10 + (d - ZERO);
    } else {
      assert (s + [d])[1..] == s[1..] + [d];
      DecimalSnoc(v * 10 + (s[0] - ZERO), s[1..], d);
    }
  }

  /** Reading back what printf wrote. */
  lemma {:induction false} DecimalOfNumeral(n: nat)
    ensures AllDigits(Numeral(n)) && Decimal(0, Numeral(n)) == n
  {
    NumeralIsCanonical(n);
    if n < 10 {
      assert Numeral(n)[1..] == [];
      assert Decimal(n, []) == n;
    } else {
      DecimalOfNumeral(n / 10);
      DecimalSnoc(0, Numeral(n / 10), ZERO + n % 10);
    }
  }

  lemma {:induction false} DecimalPositive(s: Bytes)
    requires CanonicalDigits(s)
    ensures Decimal(0, s) == 0 ==> s == [ZERO]
    ensures Decimal(0, s) < 10 ==> |s| == 1
    decreases |s|
  {
    var k := |s| - 1;
    assert s == s[..k] + [s[k]];
    DecimalSnoc(0, s[..k], s[k]);
    if k > 0 {
      DecimalPositive(s[..k]);
      assert s[0] == s[..k][0];
    }
  }

  /** printf writes a digit string back exactly when the string was canonical. */
  lemma {:induction false} NumeralOfDecimal(s: Bytes)
    requires AllDigits(s)
    ensures Numeral(Decimal(0, s)) == s <==> CanonicalDigits(s)
    decreases |s|
  {
    NumeralIsCanonical(Decimal(0, s));
    if CanonicalDigits(s) {
      var k := |s| - 1;
      assert s == s[..k] + [s[k]];
      DecimalSnoc(0, s[..k], s[k]);
      if k == 0 {
        assert s[..k] == [];
      } else {
        DecimalPositive(s);
        NumeralOfDecimal(s[..k]);
        var n := Decimal(0, s[..k]);
        assert Decimal(0, s) == n * 10 + (s[k] - ZERO);
        assert Decimal(0, s) / 10 == n && Decimal(0, s) % 10 == s[k] - ZERO;
      }
    }
  }

  /** Dropping a multiple of 2^64 before a digit step does not change the step modulo 2^64. */
  lemma WrapStep(v: nat, d: nat)
    ensures (v % U64 * 10 % U64 + d) % U64 == (v * 10 + d) % U64
  {
    var r := v % U64;
    var x := r * 10;
    ModAdd(x % U64 + d, x / U64);
    assert x == x / U64 * U64 + x % U64;
    ModAdd(x + d, v / U64 * 10);
    assert v * 10 == v / U64 * 10 * U64 + x;
  }

  lemma {:induction false} ModAdd(a: int, k: int)
    ensures (k * U64 + a) % U64 == a % U64
  {
    var m := U64;
    assert k * m + a == (a / m + k) * m + a % m;
  }
}

/** The encoding against string literals: which characters stand where in the text of a value. */
module BencodeText {
  import opened ByteString
  import opened Numerals
  import opened BencodeTree

  predicate DigitByte(b: Byte) { '0' as int <= b <= '9' as int }

  /** The number the digits in s[p..q] denote. */
  function RunValue(s: Bytes, p: nat, q: nat): nat
    requires p <= q <= |s| && forall i :: p <= i < q ==> DigitByte(s[i])
    decreases q - p
  {
    if p == q then 0
    else
      assert DigitByte(s[q - 1]);
      RunValue(s, p, q - 1) * 10 + (s[q - 1] - '0' as int)
  }

  lemma {:induction false} RunIsDecimal(s: Bytes, p: nat, q: nat)
    requires p <= q <= |s| && forall i :: p <= i < q ==> DigitByte(s[i])
    ensures AllDigits(s[p..q]) && Decimal(0, s[p..q]) == RunValue(s, p, q)
    decreases q - p
  {
    if p == q {
      assert s[p..q] == [];
    } else {
      RunIsDecimal(s, p, q - 1);
      DecimalSnoc(0, s[p..q - 1], s[q - 1]);
      assert s[p..q] == s[p..q - 1] + [s[q - 1]];
    }
  }

  /** ds is how n is written in decimal. */
  predicate Writes(ds: Bytes, n: nat) {
    && |ds| > 0 && (forall i :: 0 <= i < |ds| ==> DigitByte(ds[i]))
    && (|ds| > 1 ==> ds[0] != '0' as int) && RunValue(ds, 0, |ds|) == n
  }

  lemma {:induction false} NumeralText(n: nat)
    ensures Writes(Numeral(n), n)
  {
    hide Decimal, Numeral;
    var ds := Numeral(n);
    NumeralIsCanonical(n);
    DecimalOfNumeral(n);
    assert forall i :: 0 <= i < |ds| ==> IsDigit(ds[i]);
    RunIsDecimal(ds, 0, |ds|);
    assert ds[0..|ds|] == ds;
  }

  /** An integer is an i, a minus sign if it is negative, its digits and an e. */
  lemma {:induction false} IntegerText(i: int)
    ensures var n := if i < 0 then 0 - i else i;
            && Writes(Numeral(n), n)
            && EncodeInteger(i) == Ascii("i") + (if i < 0 then Ascii("-") else []) + Numeral(n) + Ascii("e")
    ensures Emitted(Integer(i)) == Encode(Integer(i)) == EncodeInteger(i)
  {
    hide Numeral;
    var n := if i < 0 then 0 - i else i;
    NumeralText(n);
    assert Ascii("i") == ['i' as int] && Ascii("-") == ['-' as int] && Ascii("e") == ['e' as int];
  }

  /** A string is its length in decimal, a colon and its bytes; as written, those before its first zero byte. */
  lemma {:induction false} StringText(s: Bytes, k: nat)
    requires k <= |s| && (forall i :: 0 <= i < k ==> s[i] != 0) && (k < |s| ==> s[k] == 0)
    ensures Writes(Numeral(|s|), |s|)
    ensures Encode(Text(s)) == EncodeText(s) == Numeral(|s|) + Ascii(":") + s
    ensures Emitted(Text(s)) == EmittedText(s) == Numeral(|s|) + Ascii(":") + s[..k]
  {
    hide Numeral, CString;
    NumeralText(|s|);
    assert Ascii(":") == [':' as int];
    if k < |s| {
      CStringCut(s, k);
    } else {
      CStringPrefix(s);
      assert s[..k] == s;
    }
  }

  /** A list is an l, its items and an e. */
  lemma {:induction false} ListText(ts: seq<Tree>)
    ensures Encode(List(ts)) == Ascii("l") + EncodeItems(ts) + Ascii("e")
    ensures Emitted(List(ts)) == Ascii("l") + EmittedItems(ts) + Ascii("e")
  {
    hide EncodeItems, EmittedItems;
    assert Ascii("l") == ['l' as int] && Ascii("e") == ['e' as int];
  }

  /** A dictionary is a d, its entries and an e. */
  lemma {:induction false} DictText(es: seq<Entry>)
    ensures Encode(Dict(es)) == Ascii("d") + EncodeEntries(es) + Ascii("e")
    ensures Emitted(Dict(es)) == Ascii("d") + EmittedEntries(es) + Ascii("e")
  {
    hide EncodeEntries, EmittedEntries;
    assert Ascii("d") == ['d' as int] && Ascii("e") == ['e' as int];
  }

  /** Items follow one another in order, with nothing in between. */
  lemma {:induction false} ItemsText(ts: seq<Tree>, t: Tree)
    ensures EncodeItems([]) == [] && EncodeItems(ts + [t]) == EncodeItems(ts) + Encode(t)
    ensures EmittedItems([]) == [] && EmittedItems(ts + [t]) == EmittedItems(ts) + Emitted(t)
    decreases ts
  {
    hide Encode, Emitted;
    if ts == [] {
      assert [t][1..] == [];
      assert EncodeItems([t]) == Encode(t) + EncodeItems([]) && EmittedItems([t]) == Emitted(t) + EmittedItems([]);
    } else {
      assert (ts + [t])[1..] == ts[1..] + [t];
      ItemsText(ts[1..], t);
    }
  }

  /** So do entries: a key, then its value. */
  lemma {:induction false} EntriesText(es: seq<Entry>, e: Entry)
    ensures EncodeEntries([]) == []
    ensures EncodeEntries(es + [e]) == EncodeEntries(es) + (EncodeText(e.key) + Encode(e.val))
    ensures EmittedEntries([]) == []
    ensures EmittedEntries(es + [e]) == EmittedEntries(es) + (EmittedText(e.key) + Emitted(e.val))
    decreases es
  {
    hide Encode, Emitted, EncodeText, EmittedText;
    if es == [] {
      assert [e][1..] == [];
      assert EncodeEntries([e]) == EncodeText(e.key) + Encode(e.val) + EncodeEntries([]);
      assert EmittedEntries([e]) == EmittedText(e.key) + Emitted(e.val) + EmittedEntries([]);
    } else {
      assert (es + [e])[1..] == es[1..] + [e];
      EntriesText(es[1..], e);
      Associate(EncodeText(es[0].key) + Encode(es[0].val), EncodeEntries(es[1..]), EncodeText(e.key) + Encode(e.val));
      Associate(EmittedText(es[0].key) + Emitted(es[0].val), EmittedEntries(es[1..]),
                EmittedText(e.key) + Emitted(e.val));
    }
  }
}

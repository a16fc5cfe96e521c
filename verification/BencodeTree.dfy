/**
 * The values bencoding can carry and their encoding (BEP 3, section "bencoding"),
 * beside what the calls of ben.h actually write for the same values.
 */
module BencodeTree {
  import opened ByteString
  import opened Numerals

  const CH_COLON: Byte := 58
  const CH_D: Byte := 100
  const CH_E: Byte := 101
  const CH_I: Byte := 105
  const CH_L: Byte := 108

  datatype Tree =
    | Integer(i: int)
    | Text(bytes: Bytes)
    | List(items: seq<Tree>)
    | Dict(entries: seq<Entry>)

  datatype Entry = Entry(key: Bytes, val: Tree)

  // The encoding of the standard.

  function EncodeText(s: Bytes): Bytes { Numeral(|s|) + [CH_COLON] + s }

  function EncodeInteger(i: int): Bytes { [CH_I] + SignedNumeral(i) + [CH_E] }

  function Encode(t: Tree): Bytes
    decreases t
  {
    match t
    case Integer(i) => EncodeInteger(i)
    case Text(s) => EncodeText(s)
    case List(ts) => [CH_L] + EncodeItems(ts) + [CH_E]
    case Dict(es) => [CH_D] + EncodeEntries(es) + [CH_E]
  }

  function EncodeItems(ts: seq<Tree>): Bytes
    decreases ts
  {
    if ts == [] then [] else Encode(ts[0]) + EncodeItems(ts[1..])
  }

  function EncodeEntries(es: seq<Entry>): Bytes
    decreases es
  {
    if es == [] then [] else EncodeText(es[0].key) + Encode(es[0].val) + EncodeEntries(es[1..])
  }

  // What ben.h writes: "%.*s" stops at a zero byte.

  /** The bytes "%.*s" takes from s: up to its first zero byte. */
  function CString(s: Bytes): Bytes {
    if s == [] || s[0] == 0 then [] else [s[0]] + CString(s[1..])
  }

  function EmittedText(s: Bytes): Bytes { Numeral(|s|) + [CH_COLON] + CString(s) }

  function Emitted(t: Tree): Bytes
    decreases t
  {
    match t
    case Integer(i) => EncodeInteger(i)
    case Text(s) => EmittedText(s)
    case List(ts) => [CH_L] + EmittedItems(ts) + [CH_E]
    case Dict(es) => [CH_D] + EmittedEntries(es) + [CH_E]
  }

  function EmittedItems(ts: seq<Tree>): Bytes
    decreases ts
  {
    if ts == [] then [] else Emitted(ts[0]) + EmittedItems(ts[1..])
  }

  function EmittedEntries(es: seq<Entry>): Bytes
    decreases es
  {
    if es == [] then [] else EmittedText(es[0].key) + Emitted(es[0].val) + EmittedEntries(es[1..])
  }

  // Which trees the calls accept, and which they write faithfully.

  predicate EmittableText(s: Bytes) { |s| <= INT_MAX }

  /** Integers fit a 64-bit long long; every length passes the assertion in ben_string. */
  predicate Emittable(t: Tree)
    decreases t
  {
    match t
    case Integer(i) => INT64_MIN <= i <= INT64_MAX
    case Text(s) => EmittableText(s)
    case List(ts) => EmittableItems(ts)
    case Dict(es) => EmittableEntries(es)
  }

  predicate EmittableItems(ts: seq<Tree>)
    decreases ts
  {
    ts == [] || (Emittable(ts[0]) && EmittableItems(ts[1..]))
  }

  predicate EmittableEntries(es: seq<Entry>)
    decreases es
  {
    es == [] || (EmittableText(es[0].key) && Emittable(es[0].val) && EmittableEntries(es[1..]))
  }

  // Which trees the reader can step over once their encoding is in memory: integers of any size.

  predicate SizedText(s: Bytes) { |s| < U64 }

  /** Every string length fits a size_t. */
  predicate Sized(t: Tree)
    decreases t
  {
    match t
    case Integer(i) => true
    case Text(s) => SizedText(s)
    case List(ts) => SizedItems(ts)
    case Dict(es) => SizedEntries(es)
  }

  predicate SizedItems(ts: seq<Tree>)
    decreases ts
  {
    ts == [] || (Sized(ts[0]) && SizedItems(ts[1..]))
  }

  predicate SizedEntries(es: seq<Entry>)
    decreases es
  {
    es == [] || (SizedText(es[0].key) && Sized(es[0].val) && SizedEntries(es[1..]))
  }

  predicate NulFreeText(s: Bytes) { forall k :: 0 <= k < |s| ==> s[k] != 0 }

  predicate NulFree(t: Tree)
    decreases t
  {
    match t
    case Integer(i) => true
    case Text(s) => NulFreeText(s)
    case List(ts) => NulFreeItems(ts)
    case Dict(es) => NulFreeEntries(es)
  }

  predicate NulFreeItems(ts: seq<Tree>)
    decreases ts
  {
    ts == [] || (NulFree(ts[0]) && NulFreeItems(ts[1..]))
  }

  predicate NulFreeEntries(es: seq<Entry>)
    decreases es
  {
    es == [] || (NulFreeText(es[0].key) && NulFree(es[0].val) && NulFreeEntries(es[1..]))
  }

  /** Raw byte-string order, the order BEP 3 prescribes for dictionary keys. */
  predicate Less(a: Bytes, b: Bytes) {
    if b == [] then false
    else if a == [] then true
    else a[0] < b[0] || (a[0] == b[0] && Less(a[1..], b[1..]))
  }

  /** At the first difference the smaller byte comes first; a proper prefix comes before. */
  ghost predicate FirstDifference(a: Bytes, b: Bytes, k: nat) {
    k < |a| && k < |b| && a[..k] == b[..k] && a[k] < b[k]
  }

  lemma {:induction false} LessIff(a: Bytes, b: Bytes)
    ensures Less(a, b) <==> a < b || exists k: nat :: FirstDifference(a, b, k)
    decreases |a|
  {
    if a != [] && b != [] {
      assert a == [a[0]] + a[1..] && b == [b[0]] + b[1..];
      LessIff(a[1..], b[1..]);
      if a[0] < b[0] { assert FirstDifference(a, b, 0); }
      if a[0] == b[0] {
        DifferenceFurther(a, b);
        assert a < b <==> a[1..] < b[1..];
      }
    }
  }

  lemma DifferenceFurther(a: Bytes, b: Bytes)
    requires a != [] && b != [] && a[0] == b[0]
    ensures (exists k: nat :: FirstDifference(a, b, k)) <==> exists k: nat :: FirstDifference(a[1..], b[1..], k)
  {
    if exists k: nat :: FirstDifference(a, b, k) {
      var k: nat :| FirstDifference(a, b, k);
      assert k > 0 && a[1..][..k - 1] == a[..k][1..] && b[1..][..k - 1] == b[..k][1..];
      assert FirstDifference(a[1..], b[1..], k - 1);
    }
    if exists k: nat :: FirstDifference(a[1..], b[1..], k) {
      var k: nat :| FirstDifference(a[1..], b[1..], k);
      assert a[..k + 1] == [a[0]] + a[1..][..k] && b[..k + 1] == [b[0]] + b[1..][..k];
      assert FirstDifference(a, b, k + 1);
    }
  }

  /** Every dictionary has its keys in strictly ascending order. */
  predicate KeysAscending(t: Tree)
    decreases t
  {
    match t
    case Integer(i) => true
    case Text(s) => true
    case List(ts) => forall k :: 0 <= k < |ts| ==> KeysAscending(ts[k])
    case Dict(es) =>
      && (forall k :: 0 <= k < |es| ==> KeysAscending(es[k].val))
      && (forall j, k :: 0 <= j < k < |es| ==> Less(es[j].key, es[k].key))
  }

  lemma {:induction false} EmittableIsSized(t: Tree)
    requires Emittable(t)
    ensures Sized(t)
    decreases t
  {
    match t
    case Integer(i) =>
    case Text(s) =>
    case List(ts) => EmittableItemsAreSized(ts);
    case Dict(es) => EmittableEntriesAreSized(es);
  }

  lemma {:induction false} EmittableItemsAreSized(ts: seq<Tree>)
    requires EmittableItems(ts)
    ensures SizedItems(ts)
    decreases ts
  {
    if ts != [] {
      EmittableIsSized(ts[0]);
      EmittableItemsAreSized(ts[1..]);
    }
  }

  lemma {:induction false} EmittableEntriesAreSized(es: seq<Entry>)
    requires EmittableEntries(es)
    ensures SizedEntries(es)
    decreases es
  {
    if es != [] {
      EmittableIsSized(es[0].val);
      EmittableEntriesAreSized(es[1..]);
    }
  }

  // Shape of an encoding.

  lemma {:induction false} CStringPrefix(s: Bytes)
    ensures CString(s) <= s
    ensures NulFreeText(CString(s))
    ensures CString(s) != s ==> s[|CString(s)|] == 0
    ensures CString(s) == s <==> NulFreeText(s)
  {
    if s != [] && s[0] != 0 {
      CStringPrefix(s[1..]);
      assert s == [s[0]] + s[1..];
      if NulFreeText(s) { assert NulFreeText(s[1..]); }
      if NulFreeText(s[1..]) { assert NulFreeText(s); }
    }
  }

  lemma EmittedTextLength(s: Bytes)
    ensures |EmittedText(s)| <= |EncodeText(s)|
    ensures |EmittedText(s)| == |EncodeText(s)| <==> NulFreeText(s)
    ensures NulFreeText(s) ==> EmittedText(s) == EncodeText(s)
  {
    CStringPrefix(s);
  }

  /** The colon ends the digits, so two digit prefixes of one text coincide. */
  lemma SamePrefix(a: Bytes, x: Bytes, b: Bytes, y: Bytes)
    requires AllDigits(a) && AllDigits(b) && a + [CH_COLON] + x == b + [CH_COLON] + y
    ensures a == b && x == y
  {
    var s := a + [CH_COLON] + x;
    assert forall i :: 0 <= i < |a| ==> s[i] == a[i];
    assert forall i :: 0 <= i < |b| ==> s[i] == b[i];
    assert s[|a|] == CH_COLON && s[|b|] == CH_COLON;
    assert |a| == |b|;
    assert a == s[..|a|] && b == s[..|a|];
    assert x == s[|a| + 1..] && y == s[|a| + 1..];
  }

  /** A text is cut at its first zero byte. */
  lemma {:induction false} CStringCut(s: Bytes, k: nat)
    requires k < |s| && s[k] == 0 && NulFreeText(s[..k])
    ensures CString(s) == s[..k]
    decreases k
  {
    if k > 0 {
      assert s[..k][0] == s[0] && s[..k][1..] == s[1..][..k - 1];
      CStringCut(s[1..], k - 1);
      assert s[..k] == [s[0]] + s[1..][..k - 1];
    }
  }

  lemma AnotherText(s: Bytes) returns (s': Bytes)
    requires |s| >= |CString(s)| + 2
    ensures s' != s && EmittedText(s') == EmittedText(s)
  {
    hide CString, Numeral;
    CStringPrefix(s);
    var k := |CString(s)|;
    assert s[..k] == CString(s);
    var other: Byte := if s[k + 1] == 0 then 1 else 0;
    s' := s[k + 1 := other];
    assert s'[k + 1] != s[k + 1];
    assert s'[..k] == s[..k];
    CStringCut(s', k);
  }

  lemma SameTextUnlessTwoHidden(s: Bytes, s': Bytes)
    requires EmittedText(s') == EmittedText(s) && |s| < |CString(s)| + 2
    ensures s' == s
  {
    hide CString, Numeral, CanonicalDigits, Decimal;
    DecimalOfNumeral(|s|);
    DecimalOfNumeral(|s'|);
    SamePrefix(Numeral(|s'|), CString(s'), Numeral(|s|), CString(s));
    CStringPrefix(s);
    CStringPrefix(s');
    var k := |CString(s)|;
    assert s[..k] == s'[..k];
    if |s| == k { assert s == s[..k] && s' == s'[..k]; } else { assert s == s[..k] + [0] && s' == s'[..k] + [0]; }
  }

  /**
   * A text shares its written bytes with another one if and only if at least one byte is hidden
   * behind its first zero byte.
   */
  lemma {:induction false} TextsCollideIff(s: Bytes)
    ensures (exists s' :: s' != s && EmittedText(s') == EmittedText(s)) <==> |s| >= |CString(s)| + 2
  {
    hide CString, EmittedText;
    if |s| >= |CString(s)| + 2 {
      var s' := AnotherText(s);
      assert s' != s && EmittedText(s') == EmittedText(s);
    } else {
      forall s' | EmittedText(s') == EmittedText(s)
        ensures s' == s
      {
        SameTextUnlessTwoHidden(s, s');
      }
    }
  }

  /** The smallest such pair. */
  lemma NulTextsCollide()
    ensures Emitted(Text([0, 1])) == Emitted(Text([0, 2]))
  {
  }

  /**
   * The emitter never writes more than the encoding, and writes the encoding itself
   * exactly when no string in the tree holds a zero byte.
   */
  lemma {:induction false} EmittedIffNulFree(t: Tree)
    ensures |Emitted(t)| <= |Encode(t)|
    ensures NulFree(t) ==> Emitted(t) == Encode(t)
    ensures !NulFree(t) ==> |Emitted(t)| < |Encode(t)|
    decreases t
  {
    match t
    case Integer(i) =>
    case Text(s) => EmittedTextLength(s);
    case List(ts) => EmittedItemsIffNulFree(ts);
    case Dict(es) => EmittedEntriesIffNulFree(es);
  }

  lemma {:induction false} EmittedItemsIffNulFree(ts: seq<Tree>)
    ensures |EmittedItems(ts)| <= |EncodeItems(ts)|
    ensures NulFreeItems(ts) ==> EmittedItems(ts) == EncodeItems(ts)
    ensures !NulFreeItems(ts) ==> |EmittedItems(ts)| < |EncodeItems(ts)|
    decreases ts
  {
    if ts != [] {
      EmittedIffNulFree(ts[0]);
      EmittedItemsIffNulFree(ts[1..]);
    }
  }

  lemma {:induction false} EmittedEntriesIffNulFree(es: seq<Entry>)
    ensures |EmittedEntries(es)| <= |EncodeEntries(es)|
    ensures NulFreeEntries(es) ==> EmittedEntries(es) == EncodeEntries(es)
    ensures !NulFreeEntries(es) ==> |EmittedEntries(es)| < |EncodeEntries(es)|
    decreases es
  {
    if es != [] {
      EmittedTextLength(es[0].key);
      EmittedIffNulFree(es[0].val);
      EmittedEntriesIffNulFree(es[1..]);
    }
  }

  /** No emitted value begins with a zero byte or with an end marker. */
  lemma EmittedFirst(t: Tree)
    ensures |Emitted(t)| >= 2 && Emitted(t)[0] != 0 && Emitted(t)[0] != CH_E
  {
    match t
    case Integer(i) => 
    case Text(s) => NumeralIsCanonical(|s|);
    case List(ts) =>
    case Dict(es) =>
  }
}

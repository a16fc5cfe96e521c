/**
 * Reading and writing again. What benr.c accepts is wider than what ben.h writes (leading zeros,
 * empty digit runs, wrapped values), so a value written back need not give the same bytes;
 * it does exactly when every token was canonical.
 */
module BenrCanonical {
  import opened ByteString
  import opened Numerals
  import opened BencodeTree
  import opened BenrToken
  import opened BenrSkip
  import opened BenrIter
  import opened BenrRoundTrip
  import opened BenrBounds
  import opened BenrReemit
  import opened BenrParse
  import opened BenrClosed

  /** The text of a string token with a payload of n bytes that "%zu:%.*s" could have written. */
  predicate CanonicalString(s: Bytes, n: nat) {
    && n < |s|
    && var digits := s[..|s| - n - 1];
      && CanonicalDigits(digits) && Decimal(0, digits) < U64
      && NulFreeText(s[|s| - n..])
  }

  /** Every token of the value at p is canonical. */
  predicate CanonicalAt(mem: Bytes, p: nat, hi: nat)
    requires p <= hi <= |mem|
    decreases hi - p, 0
  {
    var s := Next(mem, p, hi);
    match s.b
    case BInt(_) => CanonicalInteger(mem[p..s.next])
    case BString(_, n) => CanonicalString(mem[p..s.next], n)
    case BList(_) => CanonicalItems(mem, p + 1, hi)
    case BDict(_) => CanonicalEntries(mem, p + 1, hi)
    case _ => false
  }

  predicate CanonicalItems(mem: Bytes, p: nat, hi: nat)
    requires p <= hi <= |mem|
    decreases hi - p, 1
  {
    match ListNext(mem, p, hi)
    case Stop(_, _) => true
    case Item(b, q) => Advances(b) && CanonicalAt(mem, p, hi) && CanonicalItems(mem, q, hi)
  }

  predicate CanonicalEntries(mem: Bytes, p: nat, hi: nat)
    requires p <= hi <= |mem|
    decreases hi - p, 1
  {
    match DictNext(mem, p, hi)
    case DictStop(_, _) => Next(mem, p, hi).b.BEnd? // no key without a value before the end
    case Pair(k, _, q) =>
      && Advances(k) && CanonicalAt(mem, p, hi) && CanonicalAt(mem, Next(mem, p, hi).next, hi)
      && CanonicalEntries(mem, q, hi)
  }

  // Writing back.

  lemma ReemitText(mem: Bytes, p: nat, hi: nat)
    requires p <= hi <= |mem| && Next(mem, p, hi).b.BString? && Next(mem, p, hi).b.len <= INT_MAX
    ensures var b := Next(mem, p, hi).b;
            EmittedText(mem[b.start..b.start + b.len]) == mem[p..Next(mem, p, hi).next] <==> CanonicalAt(mem, p, hi)
  {
    hide Next, EmittedText, Decimal, CanonicalDigits;
    ReemitString(mem, p, hi);
    var b := Next(mem, p, hi).b;
    var text := mem[p..b.start + b.len];
    assert text[..|text| - b.len - 1] == mem[p..b.start - 1];
    assert text[|text| - b.len..] == mem[b.start..b.start + b.len];
  }

  /** If the bytes at p are those written for t and t is what is read there, the child ends where t's bytes do. */
  lemma EmittedEnds(mem: Bytes, p: nat, hi: nat, t: Tree)
    requires Emittable(t) && HoldsEmitted(mem, p, hi, t) && NoZeroAt(mem, p + |Emitted(t)|, hi)
    requires ReadAt(mem, p, hi) == Some(t)
    ensures ListNext(mem, p, hi) == Item(Next(mem, p, hi).b, p + |Emitted(t)|)
  {
    hide Next, ListNext, Emitted, NoZeroAt, ReadAt;
    if !NulFree(t) { Misread(mem, p, hi, t); }
    EmittedIffNulFree(t);
    EmittableIsSized(t);
    ListNextOverTree(mem, p, hi, t);
  }

  /** Two concatenations whose first parts are equally long. */
  lemma SameParts(a: Bytes, b: Bytes, x: Bytes, y: Bytes)
    requires |a| == |x| && a + b == x + y
    ensures a == x && b == y
  {
    assert a == (a + b)[..|a|] && x == (x + y)[..|x|];
    assert b == (a + b)[|a|..] && y == (x + y)[|x|..];
  }

  lemma Slices(mem: Bytes, p: nat, m: nat, q: nat)
    requires p <= m <= q <= |mem|
    ensures mem[p..q] == mem[p..m] + mem[m..q]
  {
  }

  /** The bytes of a container, its two marker bytes taken off. */
  lemma ReemitContainer(mem: Bytes, p: nat, q: nat, open: Byte, body: Bytes)
    requires p + 1 < q <= |mem| && mem[p] == open && mem[q - 1] == CH_E
    ensures [open] + body + [CH_E] == mem[p..q] <==> body == mem[p + 1..q - 1]
  {
    var s := mem[p..q];
    assert s == [open] + mem[p + 1..q - 1] + [CH_E];
    if [open] + body + [CH_E] == s {
      assert body == s[1..|s| - 1];
    }
  }

  lemma {:induction false} ReemitValue(mem: Bytes, p: nat, hi: nat, t: Tree, q: nat)
    requires p <= hi <= |mem| && ListNext(mem, p, hi).Item? && ListNext(mem, p, hi).next == q
    requires Emittable(t) && ReadAt(mem, p, hi) == Some(t)
    ensures Emitted(t) == mem[p..q] <==> CanonicalAt(mem, p, hi)
    decreases hi - p, 0
  {
    hide ScanUint, EmittedText, EncodeInteger, CanonicalInteger, CanonicalItems, CanonicalEntries;
    hide ReadItems, ReadEntries, EmittedItems, EmittedEntries, SkipFrom, ToSigned64;
    match Next(mem, p, hi).b
    case BInt(i) => ReemitInteger(mem, p, hi);
    case BString(_, _) => ReemitText(mem, p, hi);
    case BList(c) =>
      ReemitItems(mem, p + 1, hi, t.items, q);
      ReemitContainer(mem, p, q, CH_L, EmittedItems(t.items));
    case BDict(c) =>
      ReemitEntries(mem, p + 1, hi, t.entries, q);
      ReemitContainer(mem, p, q, CH_D, EmittedEntries(t.entries));
    case _ =>
  }

  lemma {:induction false} ReemitItems(mem: Bytes, p: nat, hi: nat, ts: seq<Tree>, q: nat)
    requires ClosesAt(mem, p, hi, 1, q)
    requires EmittableItems(ts) && ReadItems(mem, p, hi).value == Some(ts)
    ensures p < q && mem[q - 1] == CH_E
    ensures EmittedItems(ts) == mem[p..q - 1] <==> CanonicalItems(mem, p, hi)
    decreases hi - p, 1
  {
    hide Next, ListNext, SkipFrom, CanonicalAt, Emitted, EmittedItems, ReadValue;
    ListNextInside(mem, p, hi, mem, hi, 1, q);
    LandsBehindEndMarker(mem, p, hi, 1);
    match ListNext(mem, p, hi)
    case Stop(_, _) =>
      EndOfItems(mem, p, hi, q);
    case Item(b, n) =>
      ItemParts(mem, p, hi);
      var t, rest := ts[0], ts[1..];
      ItemsRead(mem, p, hi, ts);
      ReemitValue(mem, p, hi, t, n);
      ReemitItems(mem, n, hi, rest, q);
      Slices(mem, p, n, q - 1);
      ItemsEmitted(ts);
      if EmittedItems(ts) == mem[p..q - 1] {
        EmittedItemsAt(mem, p, hi, ts);
        EmittedEnds(mem, p, hi, t);
        SameParts(Emitted(t), EmittedItems(rest), mem[p..n], mem[n..q - 1]);
      }
  }

  lemma ItemsEmitted(ts: seq<Tree>)
    requires ts != []
    ensures EmittedItems(ts) == Emitted(ts[0]) + EmittedItems(ts[1..])
  {
    hide Emitted;
  }

  lemma ItemsRead(mem: Bytes, p: nat, hi: nat, ts: seq<Tree>)
    requires p <= hi <= |mem| && ListNext(mem, p, hi).Item? && ReadItems(mem, p, hi).value == Some(ts)
    ensures ts != [] && Advances(Next(mem, p, hi).b) && ReadAt(mem, p, hi) == Some(ts[0])
    ensures ReadItems(mem, ListNext(mem, p, hi).next, hi).value == Some(ts[1..])
  {
    hide Next, ReadValue, SkipFrom;
    var q := ListNext(mem, p, hi).next;
    var r := ReadItems(mem, q, hi).value;
    if r.Some? { assert ts[1..] == r.value; }
  }

  lemma EndOfItems(mem: Bytes, p: nat, hi: nat, q: nat)
    requires ClosesAt(mem, p, hi, 1, q) && ListNext(mem, p, hi).Stop? && ListNext(mem, p, hi).code == -1
    ensures q == p + 1 && EmittedItems([]) == mem[p..p] && CanonicalItems(mem, p, hi)
    ensures ReadItems(mem, p, hi).value == Some([])
  {
    hide Next, CanonicalAt, ReadValue, SkipFrom;
    assert Next(mem, p, hi).b.BEnd?;
    SkipStep(mem, p, hi, 1);
    SkipDone(mem, p + 1, hi);
  }

  // Entries.

  lemma PairIsItem(mem: Bytes, p: nat, hi: nat)
    requires p <= hi <= |mem| && DictNext(mem, p, hi).Pair?
    ensures var s, m := DictNext(mem, p, hi), Next(mem, p, hi).next;
            ListNext(mem, m, hi) == Item(s.v, s.next) && s.k == Next(mem, p, hi).b && s.v == Next(mem, m, hi).b
  {
    hide Next, SkipFrom;
  }

  lemma EntriesRead(mem: Bytes, p: nat, hi: nat, es: seq<Entry>)
    requires p <= hi <= |mem| && DictNext(mem, p, hi).Pair? && ReadEntries(mem, p, hi).value == Some(es)
    ensures var k, m := Next(mem, p, hi).b, Next(mem, p, hi).next;
            && es != [] && k.BString? && Advances(Next(mem, m, hi).b)
            && es[0].key == mem[k.start..k.start + k.len]
            && ReadAt(mem, m, hi) == Some(es[0].val)
            && ReadEntries(mem, DictNext(mem, p, hi).next, hi).value == Some(es[1..])
  {
    hide Next, ReadValue, DictNext;
    PairIsItem(mem, p, hi);
    var q := DictNext(mem, p, hi).next;
    var r := ReadEntries(mem, q, hi).value;
    if r.Some? { assert es[1..] == r.value; }
  }

  lemma EntriesEmitted(es: seq<Entry>)
    requires es != []
    ensures EmittedEntries(es) == EmittedText(es[0].key) + Emitted(es[0].val) + EmittedEntries(es[1..])
  {
    hide Emitted, EmittedText;
  }

  /** A key read from the bytes written for it ends where they do. */
  lemma KeyEnds(mem: Bytes, p: nat, hi: nat, key: Bytes)
    requires EmittableText(key) && hi <= |mem| && At(mem, p, EmittedText(key)) && p + |EmittedText(key)| <= hi
    requires NoZeroAt(mem, p + |EmittedText(key)|, hi)
    requires var b := Next(mem, p, hi).b; b.BString? && mem[b.start..b.start + b.len] == key
    ensures Next(mem, p, hi).next == p + |EmittedText(key)|
  {
    hide Next, EmittedText, EncodeText, At, NoZeroAt;
    if !NulFreeText(key) { MisreadText(mem, p, hi, key); }
    EmittedTextLength(key);
    TextRoundTrip(mem, p, hi, key);
  }

  lemma EndOfEntryList(mem: Bytes, p: nat, hi: nat, q: nat)
    requires ClosesAt(mem, p, hi, 1, q) && DictNext(mem, p, hi).DictStop? && DictNext(mem, p, hi).code == -1
    ensures p < q <= |mem|
    ensures EmittedEntries([]) == mem[p..q - 1] <==> CanonicalEntries(mem, p, hi)
    ensures ReadEntries(mem, p, hi).value == Some([])
  {
    hide Next, CanonicalAt, ReadValue, SkipFrom;
    var s := Next(mem, p, hi);
    SkipStep(mem, p, hi, 1);
    if s.b.BEnd? {
      SkipDone(mem, p + 1, hi);
      assert mem[p..p] == [];
    } else {
      assert |mem[p..q - 1]| > 0;
    }
  }

  lemma {:induction false} ReemitEntries(mem: Bytes, p: nat, hi: nat, es: seq<Entry>, q: nat)
    requires ClosesAt(mem, p, hi, 1, q)
    requires EmittableEntries(es) && ReadEntries(mem, p, hi).value == Some(es)
    ensures p < q && mem[q - 1] == CH_E
    ensures EmittedEntries(es) == mem[p..q - 1] <==> CanonicalEntries(mem, p, hi)
    decreases hi - p, 1
  {
    hide Next, DictNext, SkipFrom, CanonicalAt, Emitted, EmittedText, EmittedEntries, ReadValue;
    DictNextInside(mem, p, hi, mem, hi, 1, q);
    LandsBehindEndMarker(mem, p, hi, 1);
    match DictNext(mem, p, hi)
    case DictStop(_, _) =>
      EndOfEntryList(mem, p, hi, q);
    case Pair(k, v, n) =>
      EntriesRead(mem, p, hi, es);
      PairIsItem(mem, p, hi);
      var m := Next(mem, p, hi).next;
      ReemitText(mem, p, hi);
      ReemitValue(mem, m, hi, es[0].val, n);
      ReemitEntries(mem, n, hi, es[1..], q);
      EntryPieces(mem, p, hi, es, n, q);
  }

  /** The bytes of the entries are those read iff key, value and the rest each are. */
  lemma EntryPieces(mem: Bytes, p: nat, hi: nat, es: seq<Entry>, n: nat, q: nat)
    requires es != [] && EmittableEntries(es) && p <= hi <= |mem| && DictNext(mem, p, hi).Pair?
    requires ReadEntries(mem, p, hi).value == Some(es) && DictNext(mem, p, hi).next == n
    requires n < q <= hi && mem[q - 1] == CH_E
    ensures var m := Next(mem, p, hi).next;
            p <= m <= n &&
            (EmittedEntries(es) == mem[p..q - 1] <==>
             && EmittedText(es[0].key) == mem[p..m] && Emitted(es[0].val) == mem[m..n]
             && EmittedEntries(es[1..]) == mem[n..q - 1])
  {
    hide Next, DictNext, Emitted, EmittedText, EmittedEntries, ReadValue, ReadEntries, ReadAt, ListNext, NoZeroAt;
    hide HoldsEmitted;
    var m := Next(mem, p, hi).next;
    EntriesRead(mem, p, hi, es);
    PairIsItem(mem, p, hi);
    PairParts(mem, p, hi);
    Slices(mem, p, n, q - 1);
    Slices(mem, p, m, n);
    EntriesEmitted(es);
    if EmittedEntries(es) == mem[p..q - 1] {
      EmittedEntriesAt(mem, p, hi, es);
      KeyEnds(mem, p, hi, es[0].key);
      EmittedEnds(mem, m, hi, es[0].val);
      SameParts(EmittedText(es[0].key) + Emitted(es[0].val), EmittedEntries(es[1..]), mem[p..n], mem[n..q - 1]);
      SameParts(EmittedText(es[0].key), Emitted(es[0].val), mem[p..m], mem[m..n]);
    }
  }

  /** A canonical dictionary walk ends at an end marker in key position. */
  lemma {:induction false} CanonicalEntriesEnd(mem: Bytes, p: nat, hi: nat)
    requires p <= hi <= |mem| && CanonicalEntries(mem, p, hi)
    ensures Next(mem, LastCallAt(mem, p, hi), hi).b.BEnd?
    decreases hi - p
  {
    hide Next, DictNext, CanonicalAt;
    match DictNext(mem, p, hi)
    case DictStop(_, _) =>
    case Pair(_, _, q) => if q > p { CanonicalEntriesEnd(mem, q, hi); } else { PairParts(mem, p, hi); }
  }

  /** A canonical value that can be read is one an iterator steps over. */
  lemma CanonicalIsClosed(mem: Bytes, p: nat, hi: nat)
    requires p <= hi <= |mem| && ReadAt(mem, p, hi).Some? && CanonicalAt(mem, p, hi)
    ensures ListNext(mem, p, hi).Item?
  {
    hide Next, SkipFrom, ReadItems, ReadEntries, CanonicalItems, CanonicalEntries, CanonicalInteger, CanonicalString;
    match Next(mem, p, hi).b
    case BList(_) => ReadListIsClosed(mem, p + 1, hi);
    case BDict(_) =>
      CanonicalEntriesEnd(mem, p + 1, hi);
      ReadDictIsClosedIff(mem, p + 1, hi);
    case _ =>
  }

  /**
   * Reading any value and writing it back reproduces the bytes it was read from if and only if every
   * token in them was canonical and no dictionary, the outermost included, ends in a key without a value.
   */
  lemma {:induction false} RewriteIffCanonical(mem: Bytes, p: nat, hi: nat, t: Tree)
    requires p <= hi <= |mem| && Read(mem, p, hi).value == Some(t) && Emittable(t)
    ensures ListNext(mem, p, hi).Item? && Emitted(t) == mem[p..ListNext(mem, p, hi).next]
            <==> CanonicalAt(mem, p, hi)
  {
    hide Read, ListNext, ReadAt, Emitted, CanonicalAt;
    ReadIsReadAt(mem, p, hi);
    if ListNext(mem, p, hi).Item? {
      ReemitValue(mem, p, hi, t, ListNext(mem, p, hi).next);
    } else if CanonicalAt(mem, p, hi) {
      CanonicalIsClosed(mem, p, hi);
    }
  }
}

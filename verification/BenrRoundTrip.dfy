/** What the emitter and the reader guarantee together. */
module BenrRoundTrip {
  import opened ByteString
  import opened Numerals
  import opened BencodeTree
  import opened BenrToken
  import opened BenrSkip
  import opened BenrIter

  /**
   * A value written by the emitter and followed by anything at all is read back whole:
   * same tree, children in order.
   */
  lemma RoundTrip(t: Tree, trail: Bytes)
    requires Emittable(t) && NulFree(t)
    ensures var mem := Emitted(t) + trail;
            Read(mem, 0, |mem|) == Visit(Some(t), Work(t))
  {
    hide Next, Emitted, Encode, Work;
    var mem := Emitted(t) + trail;
    EmittedIffNulFree(t);
    assert mem[0..|Encode(t)|] == Encode(t);
    ReadTree(mem, 0, |mem|, t);
  }

  /**
   * The k-th call on the iterator of an encoded list yields the k-th child and stops right behind it;
   * the call after the last child reports the end, right behind the end marker.
   */
  lemma {:induction false} ListIteration(mem: Bytes, p: nat, hi: nat, ts: seq<Tree>, k: nat)
    requires EmittableItems(ts) && HoldsItems(mem, p, hi, ts) && k <= |ts|
    ensures var at := p + |EncodeItems(ts[..k])|;
            at <= hi <= |mem| &&
            if k == |ts| then ListNext(mem, at, hi) == Stop(-1, Span(at + 1, 0))
            else
              var s := ListNext(mem, at, hi);
              s.Item? && s.next == p + |EncodeItems(ts[..k + 1])| && ReadValue(mem, s.b).value == Some(ts[k])
    decreases k
  {
    hide Next, Holds, HoldsItems, Encode, EncodeItems, ReadItems, ReadValue;
    NothingEncoded();
    if ts == [] {
      NoItemsAt(mem, p, hi);
    } else {
      ItemsAt(mem, p, hi, ts);
      EmittableIsSized(ts[0]);
      ListNextOverTree(mem, p, hi, ts[0]);
      ReadTree(mem, p, hi, ts[0]);
      ItemsPrefix(ts, if k == |ts| then k else k + 1);
      if k == 0 {
        assert ts[..0] == [] && ts[1..][..0] == [];
      } else {
        ItemsPrefix(ts, k);
        ListIteration(mem, p + |Encode(ts[0])|, hi, ts[1..], k - 1);
      }
    }
  }

  lemma ItemsPrefix(ts: seq<Tree>, k: nat)
    requires 0 < k <= |ts|
    ensures |EncodeItems(ts[..k])| == |Encode(ts[0])| + |EncodeItems(ts[1..][..k - 1])|
  {
    assert ts[..k][1..] == ts[1..][..k - 1];
  }

  /** The same for the iterator of an encoded dictionary, key and value together. */
  lemma {:induction false} DictIteration(mem: Bytes, p: nat, hi: nat, es: seq<Entry>, k: nat)
    requires EmittableEntries(es) && HoldsEntries(mem, p, hi, es) && k <= |es|
    ensures var at := p + |EncodeEntries(es[..k])|;
            at <= hi <= |mem| &&
            if k == |es| then DictNext(mem, at, hi) == DictStop(-1, Span(at + 1, 0))
            else
              var s := DictNext(mem, at, hi);
              && s.Pair? && s.next == p + |EncodeEntries(es[..k + 1])|
              && ReadValue(mem, s.k).value == Some(Text(es[k].key))
              && ReadValue(mem, s.v).value == Some(es[k].val)
    decreases k
  {
    hide Next, DictNext, Holds, HoldsEntries, HoldsText, Encode, EncodeText, EncodeEntries, ReadValue;
    NothingEncoded();
    if es == [] {
      EndOfEntries(mem, p, hi);
      NoEntriesAt(mem, p, hi);
    } else {
      EntriesAt(mem, p, hi, es);
      var q := p + |EncodeText(es[0].key)| + |Encode(es[0].val)|;
      if k == 0 {
        DictStepHere(mem, p, hi, es);
        assert es[..0] == [];
        EntriesPrefix(es, 1);
        assert es[1..][..0] == [];
      } else {
        EntriesPrefix(es, k);
        if k < |es| { EntriesPrefix(es, k + 1); }
        DictIteration(mem, q, hi, es[1..], k - 1);
      }
    }
  }

  lemma NothingEncoded()
    ensures |EncodeItems([])| == 0 && |EncodeEntries([])| == 0
  {
  }

  lemma EndOfEntries(mem: Bytes, p: nat, hi: nat)
    requires HoldsEntries(mem, p, hi, [])
    ensures p < hi <= |mem| && DictNext(mem, p, hi) == DictStop(-1, Span(p + 1, 0))
  {
    hide Next;
    NoEntriesAt(mem, p, hi);
  }

  lemma DictStepHere(mem: Bytes, p: nat, hi: nat, es: seq<Entry>)
    requires es != [] && EmittableEntries(es) && HoldsEntries(mem, p, hi, es)
    ensures p <= hi <= |mem|
    ensures var s := DictNext(mem, p, hi);
            && s.Pair? && s.next == p + |EncodeText(es[0].key)| + |Encode(es[0].val)|
            && ReadValue(mem, s.k).value == Some(Text(es[0].key))
            && ReadValue(mem, s.v).value == Some(es[0].val)
  {
    hide Next, Holds, HoldsEntries, HoldsText, Encode, EncodeText, EncodeEntries, ReadEntries, ReadItems;
    EntriesAt(mem, p, hi, es);
    EmittableEntriesAreSized(es);
    DictNextOverEntry(mem, p, hi, es);
    ReadTree(mem, p + |EncodeText(es[0].key)|, hi, es[0].val);
  }

  lemma EntriesPrefix(es: seq<Entry>, k: nat)
    requires 0 < k <= |es|
    ensures |EncodeEntries(es[..k])| ==
            |EncodeText(es[0].key)| + |Encode(es[0].val)| + |EncodeEntries(es[1..][..k - 1])|
  {
    assert es[..k][1..] == es[1..][..k - 1];
  }

  /** Once the end has been reported, a further call reports success with no token. */
  lemma EndIsReportedOnce(mem: Bytes, p: nat, hi: nat)
    requires p <= hi <= |mem|
    ensures ListNext(mem, p, hi).Stop? && ListNext(mem, p, hi).code == -1 ==>
              var c := ListNext(mem, p, hi).ctx;
              ListNext(mem, c.start, c.start + c.len) == Item(BNone, c.start)
    ensures DictNext(mem, p, hi).DictStop? && DictNext(mem, p, hi).code == -1 ==>
              var c := DictNext(mem, p, hi).ctx;
              DictNext(mem, c.start, c.start + c.len) == Pair(BNone, BNone, c.start)
  {
  }

  // Prefix freedom.

  /** Two values written back to back with anything split in exactly one way. */
  lemma SplitsUniquely(t: Tree, x: Bytes, t': Tree, x': Bytes)
    requires Emittable(t) && NulFree(t) && Emittable(t') && NulFree(t')
    requires Emitted(t) + x == Emitted(t') + x'
    ensures t == t' && x == x'
  {
    hide Emitted, Read, Work;
    RoundTrip(t, x);
    RoundTrip(t', x');
    assert x == (Emitted(t) + x)[|Emitted(t)|..];
    assert x' == (Emitted(t') + x')[|Emitted(t')|..];
  }

  /** No value's bytes begin another value's bytes, and no two values share their bytes. */
  lemma PrefixFree(t: Tree, t': Tree)
    requires Emittable(t) && NulFree(t) && Emittable(t') && NulFree(t')
    ensures Emitted(t) <= Emitted(t') ==> t == t'
  {
    hide Emitted;
    if Emitted(t) <= Emitted(t') {
      var x := Emitted(t')[|Emitted(t)|..];
      assert Emitted(t) + x == Emitted(t') + [];
      SplitsUniquely(t, x, t', []);
    }
  }

  // The zero byte, exactly.

  predicate HoldsEmitted(mem: Bytes, p: nat, hi: nat, t: Tree) {
    hi <= |mem| && At(mem, p, Emitted(t)) && p + |Emitted(t)| <= hi
  }

  predicate HoldsEmittedItems(mem: Bytes, p: nat, hi: nat, ts: seq<Tree>) {
    && hi <= |mem| && At(mem, p, EmittedItems(ts)) && p + |EmittedItems(ts)| < hi
    && mem[p + |EmittedItems(ts)|] == CH_E
  }

  predicate HoldsEmittedEntries(mem: Bytes, p: nat, hi: nat, es: seq<Entry>) {
    && hi <= |mem| && At(mem, p, EmittedEntries(es)) && p + |EmittedEntries(es)| < hi
    && mem[p + |EmittedEntries(es)|] == CH_E
  }

  /** The buffer ends here, or goes on with something other than a zero byte. */
  predicate NoZeroAt(mem: Bytes, p: nat, hi: nat) {
    p == hi || (p < hi <= |mem| && mem[p] != 0)
  }

  function ReadAt(mem: Bytes, p: nat, hi: nat): Option<Tree>
    requires p <= hi <= |mem|
  {
    ReadValue(mem, Next(mem, p, hi).b).value
  }

  lemma MisreadText(mem: Bytes, p: nat, hi: nat, s: Bytes)
    requires EmittableText(s) && !NulFreeText(s)
    requires hi <= |mem| && At(mem, p, EmittedText(s)) && p + |EmittedText(s)| <= hi
    requires NoZeroAt(mem, p + |EmittedText(s)|, hi)
    ensures var b := Next(mem, p, hi).b;
            IsError(b) || (b.BString? && mem[b.start..b.start + b.len] != s)
  {
    hide Next, Numeral;
    AtSplit(mem, p, Numeral(|s|) + [CH_COLON], CString(s));
    TextPrefix(mem, p, hi, s);
    CStringPrefix(s);
    var q := p + |Numeral(|s|)| + 1;
    var k := |CString(s)|;
    if |s| <= hi - q {
      assert s[k] == 0 && mem[q..q + |s|][k] == mem[q + k] != 0;
    }
  }

  lemma EmittedStart(mem: Bytes, p: nat, t: Tree)
    requires At(mem, p, Emitted(t))
    ensures |Emitted(t)| >= 2 && p < |mem| && mem[p] != 0 && mem[p] != CH_E
  {
    hide Emitted;
    EmittedFirst(t);
    assert mem[p] == mem[p..p + |Emitted(t)|][0];
  }

  lemma EmittedTextStart(mem: Bytes, p: nat, s: Bytes)
    requires At(mem, p, EmittedText(s))
    ensures |EmittedText(s)| >= 2 && p < |mem| && mem[p] != 0 && mem[p] != CH_E
  {
    hide EmittedText, At;
    EmittedStart(mem, p, Text(s));
  }

  lemma ItemsStart(mem: Bytes, p: nat, hi: nat, ts: seq<Tree>)
    requires HoldsEmittedItems(mem, p, hi, ts)
    ensures NoZeroAt(mem, p, hi) && p < hi && (ts != [] ==> mem[p] != CH_E)
  {
    hide At, Emitted;
    if ts != [] {
      AtSplit(mem, p, Emitted(ts[0]), EmittedItems(ts[1..]));
      EmittedStart(mem, p, ts[0]);
    }
  }

  lemma EntriesStart(mem: Bytes, p: nat, hi: nat, es: seq<Entry>)
    requires HoldsEmittedEntries(mem, p, hi, es)
    ensures NoZeroAt(mem, p, hi) && p < hi && (es != [] ==> mem[p] != CH_E)
  {
    hide At, Emitted, EmittedText;
    if es != [] {
      EmittedEntriesParts(mem, p, es);
      EmittedTextStart(mem, p, es[0].key);
    }
  }

  lemma EmittedEntriesParts(mem: Bytes, p: nat, es: seq<Entry>)
    requires es != [] && At(mem, p, EmittedEntries(es))
    ensures var k, v, r := EmittedText(es[0].key), Emitted(es[0].val), EmittedEntries(es[1..]);
            && |EmittedEntries(es)| == |k| + |v| + |r|
            && At(mem, p, k) && At(mem, p + |k|, v) && At(mem, p + |k| + |v|, r)
  {
    hide At, Emitted, EmittedText;
    AtSplit3(mem, p, EmittedText(es[0].key), Emitted(es[0].val), EmittedEntries(es[1..]));
  }

  lemma EmittedItemsAt(mem: Bytes, p: nat, hi: nat, ts: seq<Tree>)
    requires ts != [] && HoldsEmittedItems(mem, p, hi, ts)
    ensures hi <= |mem| && HoldsEmitted(mem, p, hi, ts[0]) && mem[p] != CH_E
    ensures HoldsEmittedItems(mem, p + |Emitted(ts[0])|, hi, ts[1..])
    ensures NoZeroAt(mem, p + |Emitted(ts[0])|, hi)
  {
    hide At, Emitted, NoZeroAt;
    AtSplit(mem, p, Emitted(ts[0]), EmittedItems(ts[1..]));
    ItemsStart(mem, p, hi, ts);
    ItemsStart(mem, p + |Emitted(ts[0])|, hi, ts[1..]);
  }

  lemma EmittedEntriesAt(mem: Bytes, p: nat, hi: nat, es: seq<Entry>)
    requires es != [] && HoldsEmittedEntries(mem, p, hi, es)
    ensures var k, v := EmittedText(es[0].key), Emitted(es[0].val);
            && hi <= |mem| && At(mem, p, k) && p + |k| < hi && mem[p] != CH_E
            && NoZeroAt(mem, p + |k|, hi) && mem[p + |k|] != CH_E
            && HoldsEmitted(mem, p + |k|, hi, es[0].val)
            && NoZeroAt(mem, p + |k| + |v|, hi)
            && HoldsEmittedEntries(mem, p + |k| + |v|, hi, es[1..])
  {
    hide At, Emitted, EmittedText, EmittedEntries;
    var k, v := EmittedText(es[0].key), Emitted(es[0].val);
    EmittedEntriesParts(mem, p, es);
    EntriesStart(mem, p, hi, es);
    EmittedStart(mem, p + |k|, es[0].val);
    EntriesStart(mem, p + |k| + |v|, hi, es[1..]);
  }

  /** A tree holding a zero byte somewhere is not what the reader makes of its emitted bytes. */
  lemma {:induction false} Misread(mem: Bytes, p: nat, hi: nat, t: Tree)
    requires Emittable(t) && !NulFree(t)
    requires HoldsEmitted(mem, p, hi, t) && NoZeroAt(mem, p + |Emitted(t)|, hi)
    ensures ReadAt(mem, p, hi) != Some(t)
    decreases t
  {
    hide EmittedText, EmittedItems, EmittedEntries, ListNext, DictNext, NoZeroAt, NextInt, NextString;
    match t
    case Text(s) => MisreadText(mem, p, hi, s);
    case List(ts) =>
      ContainerAt(mem, p, CH_L, EmittedItems(ts));
      MisreadItems(mem, p + 1, hi, ts);
    case Dict(es) =>
      ContainerAt(mem, p, CH_D, EmittedEntries(es));
      MisreadEntries(mem, p + 1, hi, es);
  }

  lemma {:induction false} MisreadItems(mem: Bytes, p: nat, hi: nat, ts: seq<Tree>)
    requires EmittableItems(ts) && !NulFreeItems(ts) && HoldsEmittedItems(mem, p, hi, ts)
    ensures ReadItems(mem, p, hi).value != Some(ts)
    decreases ts
  {
    hide Next, At, HoldsEmittedItems, Emitted, Encode, EmittedItems, Skip, NoZeroAt, ReadValue, Work;
    EmittedItemsAt(mem, p, hi, ts);
    EmittedIffNulFree(ts[0]);
    if NulFree(ts[0]) {
      EmittableIsSized(ts[0]);
      ListNextOverTree(mem, p, hi, ts[0]);
      ReadTree(mem, p, hi, ts[0]);
      MisreadItems(mem, p + |Emitted(ts[0])|, hi, ts[1..]);
      var r := ReadItems(mem, p + |Emitted(ts[0])|, hi).value;
      if r.Some? { assert r.value == ([ts[0]] + r.value)[1..]; }
    } else {
      Misread(mem, p, hi, ts[0]);
    }
  }

  lemma {:induction false} MisreadEntries(mem: Bytes, p: nat, hi: nat, es: seq<Entry>)
    requires EmittableEntries(es) && !NulFreeEntries(es) && HoldsEmittedEntries(mem, p, hi, es)
    ensures ReadEntries(mem, p, hi).value != Some(es)
    decreases es
  {
    hide Next, At, HoldsEmittedEntries, Emitted, Encode, EmittedEntries, EmittedText, Skip, NoZeroAt, ReadValue, Work;
    EmittedEntriesAt(mem, p, hi, es);
    var q := p + |EmittedText(es[0].key)|;
    if !NulFreeText(es[0].key) {
      MisreadText(mem, p, hi, es[0].key);
    } else {
      EmittedTextLength(es[0].key);
      TextRoundTrip(mem, p, hi, es[0].key);
      MisreadEntriesGoodKey(mem, p, hi, es);
    }
  }

  /** A dict step that starts with a string key and does not meet an end marker behind it. */
  lemma PairAhead(mem: Bytes, p: nat, hi: nat)
    requires p <= hi <= |mem| && Next(mem, p, hi).b.BString? && Next(mem, p, hi).next < hi
    requires mem[Next(mem, p, hi).next] != CH_E
    ensures var q := Next(mem, p, hi).next;
            match DictNext(mem, p, hi)
            case DictStop(code, _) => code != -1
            case Pair(k, v, n) =>
              && k == Next(mem, p, hi).b && v == Next(mem, q, hi).b
              && ListNext(mem, q, hi) == Item(v, n)
  {
    hide Next, SkipFrom;
  }

  lemma {:induction false} MisreadEntriesGoodKey(mem: Bytes, p: nat, hi: nat, es: seq<Entry>)
    requires EmittableEntries(es) && !NulFreeEntries(es) && HoldsEmittedEntries(mem, p, hi, es)
    requires NulFreeText(es[0].key)
    requires p <= hi && Next(mem, p, hi).b.BString? && Next(mem, p, hi).next == p + |EmittedText(es[0].key)|
    ensures ReadEntries(mem, p, hi).value != Some(es)
    decreases es, 0
  {
    hide Next, DictNext, ListNext, At, HoldsEmittedEntries, Emitted, Encode, EmittedEntries, EmittedText;
    hide ReadValue, Work;
    EmittedEntriesAt(mem, p, hi, es);
    PairAhead(mem, p, hi);
    var q := p + |EmittedText(es[0].key)|;
    EmittedIffNulFree(es[0].val);
    if NulFree(es[0].val) {
      EmittableIsSized(es[0].val);
      ListNextOverTree(mem, q, hi, es[0].val);
      ReadTree(mem, q, hi, es[0].val);
      MisreadEntries(mem, q + |Emitted(es[0].val)|, hi, es[1..]);
      var r := ReadEntries(mem, q + |Emitted(es[0].val)|, hi).value;
      if r.Some? {
        var b := Next(mem, p, hi).b;
        assert r.value == ([Entry(mem[b.start..b.start + b.len], es[0].val)] + r.value)[1..];
      }
    } else {
      Misread(mem, q, hi, es[0].val);
    }
  }

  /**
   * Any value the emitter accepts comes back from its own bytes
   * if and only if none of its strings holds a zero byte.
   */
  lemma {:induction false} RoundTripIffNulFree(t: Tree)
    requires Emittable(t)
    ensures var mem := Emitted(t);
            Read(mem, 0, |mem|).value == Some(t) <==> NulFree(t)
  {
    hide Next, Emitted, Work;
    var mem := Emitted(t);
    if NulFree(t) {
      assert mem + [] == mem;
      RoundTrip(t, []);
    } else {
      assert mem[0..|mem|] == mem;
      Misread(mem, 0, |mem|, t);
      EmittedFirst(t);
    }
  }
}

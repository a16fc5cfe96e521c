/**
 * What benr.c accepts, and what it makes of it, as an inductive syntax that knows nothing of cursors,
 * skipping or iterators: numbers and strings behind any run of digits, and boxes of such nodes.
 */
module BenrSyntax {
  import opened ByteString
  import opened Numerals
  import opened BencodeTree
  import opened BenrToken
  import opened BenrSkip
  import opened BenrIter
  import opened BenrRoundTrip

  datatype Node =
    | Number(neg: bool, digits: Bytes)
    | Word(digits: Bytes, payload: Bytes)
    | Box(dict: bool, inside: seq<Node>)

  /** Any digits will do for a number, even none; those of a string give its length modulo 2^64. */
  predicate WellFormed(n: Node)
    decreases n
  {
    match n
    case Number(_, ds) => AllDigits(ds)
    case Word(ds, s) => |ds| > 0 && AllDigits(ds) && Decimal(0, ds) % U64 == |s|
    case Box(_, ns) => AllWellFormed(ns)
  }

  predicate AllWellFormed(ns: seq<Node>)
    decreases ns
  {
    ns == [] || (WellFormed(ns[0]) && AllWellFormed(ns[1..]))
  }

  function Opener(dict: bool): Byte { if dict then CH_D else CH_L }

  function Print(n: Node): Bytes
    decreases n
  {
    match n
    case Number(neg, ds) => (if neg then [CH_I, MINUS] else [CH_I]) + ds + [CH_E]
    case Word(ds, s) => ds + [CH_COLON] + s
    case Box(dict, ns) => [Opener(dict)] + PrintAll(ns) + [CH_E]
  }

  function PrintAll(ns: seq<Node>): Bytes
    decreases ns
  {
    if ns == [] then [] else Print(ns[0]) + PrintAll(ns[1..])
  }

  /** The value a node is read as, if it is read at all. */
  function ValueOf(n: Node): Option<Tree>
    requires WellFormed(n)
    decreases n
  {
    match n
    case Number(neg, ds) => Some(Integer(Wrap64(if neg then 0 - Decimal(0, ds) else Decimal(0, ds))))
    case Word(_, s) => Some(Text(s))
    case Box(dict, ns) =>
      if dict then
        var es := EntriesOf(ns);
        if es.Some? then Some(Dict(es.value)) else None
      else
        var ts := ValuesOf(ns);
        if ts.Some? then Some(List(ts.value)) else None
  }

  function ValuesOf(ns: seq<Node>): Option<seq<Tree>>
    requires AllWellFormed(ns)
    decreases ns
  {
    if ns == [] then Some([])
    else
      var t, ts := ValueOf(ns[0]), ValuesOf(ns[1..]);
      if t.Some? && ts.Some? then Some([t.value] + ts.value) else None
  }

  /**
   * Keys and values alternate. A last key without a value is dropped; so is everything from an empty
   * box in key position on. Any other key that is no string makes the dictionary unreadable.
   */
  function EntriesOf(ns: seq<Node>): Option<seq<Entry>>
    requires AllWellFormed(ns)
    decreases ns
  {
    if ns == [] then Some([])
    else if ns[0].Box? then if ns[0].inside == [] then Some([]) else None
    else if |ns| == 1 then Some([])
    else if ns[0].Number? then None
    else
      var rest := ns[1..];
      assert AllWellFormed(rest) && WellFormed(rest[0]);
      var v, es := ValueOf(rest[0]), EntriesOf(rest[1..]);
      if v.Some? && es.Some? then Some([Entry(ns[0].payload, v.value)] + es.value) else None
  }

  /** The walk of a dictionary with these nodes ends at an empty box, before its end marker. */
  predicate StopsEarly(ns: seq<Node>)
    decreases |ns|
  {
    ns != [] && if ns[0].Box? then ns[0].inside == [] else |ns| > 1 && StopsEarly(ns[1..][1..])
  }

  // Entries and what is dropped behind them, without recursion.

  /** The two nodes make the entry. */
  predicate Makes(k: Node, v: Node, e: Entry)
    requires WellFormed(v)
  {
    k.Word? && k.payload == e.key && ValueOf(v) == Some(e.val)
  }

  /** Nodes behind the last entry that no walk reports. */
  predicate IsDropped(ns: seq<Node>) {
    ns == [] || if ns[0].Box? then ns[0].inside == [] else |ns| == 1
  }

  /** The nodes begin with those of the entries, two by two. */
  ghost predicate MakesAll(ns: seq<Node>, es: seq<Entry>) {
    && 2 * |es| <= |ns|
    && forall k :: 0 <= k < |es| ==> WellFormed(ns[2 * k + 1]) && Makes(ns[2 * k], ns[2 * k + 1], es[k])
  }

  lemma MakesAllStep(ns: seq<Node>, es: seq<Entry>)
    requires |ns| > 1 && es != []
    ensures MakesAll(ns, es) <==>
            WellFormed(ns[1]) && Makes(ns[0], ns[1], es[0]) && MakesAll(ns[2..], es[1..])
  {
    hide WellFormed, Makes;
    if MakesAll(ns, es) {
      forall k | 0 <= k < |es[1..]|
        ensures WellFormed(ns[2..][2 * k + 1]) && Makes(ns[2..][2 * k], ns[2..][2 * k + 1], es[1..][k])
      {
        assert es[1..][k] == es[k + 1];
      }
    }
    if WellFormed(ns[1]) && Makes(ns[0], ns[1], es[0]) && MakesAll(ns[2..], es[1..]) {
      forall k | 0 <= k < |es|
        ensures WellFormed(ns[2 * k + 1]) && Makes(ns[2 * k], ns[2 * k + 1], es[k])
      {
        if k > 0 {
          assert es[k] == es[1..][k - 1];
          assert ns[2..][2 * (k - 1)] == ns[2 * k] && ns[2..][2 * (k - 1) + 1] == ns[2 * k + 1];
        }
      }
    }
  }

  /**
   * The nodes of a dictionary are read as es if and only if they are, two by two, the entries of es,
   * followed by nothing, by one string or number, or by an empty box and anything at all.
   */
  lemma {:induction false} EntriesIffPairs(ns: seq<Node>, es: seq<Entry>)
    requires AllWellFormed(ns)
    ensures EntriesOf(ns) == Some(es) <==> MakesAll(ns, es) && IsDropped(ns[2 * |es|..])
    decreases |ns|
  {
    hide ValueOf, WellFormed, MakesAll;
    NoEntriesMade(ns, es);
    if |ns| > 1 && !ns[0].Box? && es != [] {
      EntriesOfPair(ns);
      assert ns[1..][0] == ns[1] && ns[1..][1..] == ns[2..];
      MakesAllStep(ns, es);
      EntriesIffPairs(ns[2..], es[1..]);
      ConsEntry(ns, es);
      if MakesAll(ns[2..], es[1..]) { SameTail(ns, es); }
    }
  }

  lemma NoEntriesMade(ns: seq<Node>, es: seq<Entry>)
    ensures es == [] ==> MakesAll(ns, es)
    ensures es != [] && MakesAll(ns, es) ==> |ns| > 1 && ns[0].Word?
    ensures MakesAll(ns, es) ==> 2 * |es| <= |ns|
  {
    hide WellFormed, ValueOf;
    if es != [] && MakesAll(ns, es) { assert Makes(ns[2 * 0], ns[2 * 0 + 1], es[0]); }
  }

  lemma SameTail(ns: seq<Node>, es: seq<Entry>)
    requires |ns| > 1 && es != [] && MakesAll(ns[2..], es[1..])
    ensures 2 * |es| <= |ns| && ns[2 * |es|..] == ns[2..][2 * |es[1..]|..]
  {
  }

  lemma ConsEntry(ns: seq<Node>, es: seq<Entry>)
    requires AllWellFormed(ns) && |ns| > 1 && !ns[0].Box? && es != []
    requires WellFormed(ns[1]) && AllWellFormed(ns[2..])
    ensures EntriesOf(ns) == Some(es) <==> Makes(ns[0], ns[1], es[0]) && EntriesOf(ns[2..]) == Some(es[1..])
  {
    hide ValueOf, WellFormed;
    EntriesOfPair(ns);
    assert ns[1..][0] == ns[1] && ns[1..][1..] == ns[2..];
    var v, r := ValueOf(ns[1]), EntriesOf(ns[2..]);
    assert es == [es[0]] + es[1..];
    if ns[0].Word? && v.Some? && r.Some? {
      var e := Entry(ns[0].payload, v.value);
      assert ([e] + r.value)[1..] == r.value;
    }
  }

  // Printed nodes in memory.

  predicate HoldsNode(mem: Bytes, p: nat, hi: nat, n: Node) {
    hi <= |mem| && At(mem, p, Print(n)) && p + |Print(n)| <= hi
  }

  predicate HoldsNodes(mem: Bytes, p: nat, hi: nat, ns: seq<Node>) {
    hi <= |mem| && At(mem, p, PrintAll(ns)) && p + |PrintAll(ns)| <= hi
  }

  /** An end marker stands at p. */
  predicate EndMarkAt(mem: Bytes, p: nat, hi: nat) { p < hi <= |mem| && mem[p] == CH_E }

  lemma NodesParts(mem: Bytes, p: nat, hi: nat, ns: seq<Node>)
    requires ns != [] && HoldsNodes(mem, p, hi, ns)
    ensures HoldsNode(mem, p, hi, ns[0]) && HoldsNodes(mem, p + |Print(ns[0])|, hi, ns[1..])
    ensures |PrintAll(ns)| == |Print(ns[0])| + |PrintAll(ns[1..])|
  {
    hide At, Print;
    AtSplit(mem, p, Print(ns[0]), PrintAll(ns[1..]));
  }

  lemma NumberText(mem: Bytes, p: nat, n: Node)
    requires n.Number? && At(mem, p, Print(n))
    ensures var from, q := if n.neg then p + 2 else p + 1, p + |Print(n)|;
            && from < q <= |mem| && mem[p] == CH_I && mem[from..q - 1] == n.digits && mem[q - 1] == CH_E
            && (n.neg ==> mem[p + 1] == MINUS)
            && (!n.neg && AllDigits(n.digits) ==> mem[p + 1] != MINUS)
  {
    hide At;
    var text := Print(n);
    var d, k := if n.neg then 2 else 1, |text| - 1;
    assert text[d..k] == n.digits;
    Piece(mem, p, text, 0, 1);
    Piece(mem, p, text, 1, 2);
    Piece(mem, p, text, d, k);
    Piece(mem, p, text, k, k + 1);
    if !n.neg && n.digits != [] { assert text[1] == n.digits[0]; }
  }

  lemma NumberAt(mem: Bytes, p: nat, hi: nat, n: Node)
    requires n.Number? && WellFormed(n) && HoldsNode(mem, p, hi, n)
    ensures p < p + |Print(n)| <= hi <= |mem|
    ensures Next(mem, p, hi).next == p + |Print(n)| && Next(mem, p, hi).b.BInt?
    ensures Some(Integer(Next(mem, p, hi).b.i)) == ValueOf(n)
  {
    hide ScanUint, Decimal, ToSigned64, NextString, Print, At;
    NumberText(mem, p, n);
    var from, q := if n.neg then p + 2 else p + 1, p + |Print(n)|;
    ScanUintMeaning(mem, from, hi, CH_E, Decimal(0, n.digits) % U64, q);
    if n.neg { NegateWraps(Decimal(0, n.digits)); }
  }

  lemma WordText(mem: Bytes, p: nat, n: Node)
    requires n.Word? && At(mem, p, Print(n))
    ensures var d, q := p + |n.digits|, p + |Print(n)|;
            && d < q <= |mem| && |Print(n)| == |n.digits| + 1 + |n.payload|
            && mem[p..d] == n.digits && mem[d] == CH_COLON && mem[d + 1..q] == n.payload
  {
    hide At;
    var text, d := Print(n), |n.digits|;
    assert text[0..d] == n.digits && text[d + 1..|text|] == n.payload;
    Piece(mem, p, text, 0, d);
    Piece(mem, p, text, d, d + 1);
    Piece(mem, p, text, d + 1, |text|);
  }

  lemma WordAt(mem: Bytes, p: nat, hi: nat, n: Node)
    requires n.Word? && WellFormed(n) && HoldsNode(mem, p, hi, n)
    ensures p < p + |Print(n)| <= hi <= |mem|
    ensures var q, k := p + |Print(n)|, |n.payload|;
            k <= q && Next(mem, p, hi) == Step(BString(q - k, k), q) && mem[q - k..q] == n.payload
  {
    hide ScanUint, Decimal, NextInt, Print, At;
    WordText(mem, p, n);
    assert mem[p] == mem[p..p + |n.digits|][0];
    ScanUintMeaning(mem, p, hi, CH_COLON, |n.payload|, p + |n.digits| + 1);
  }

  lemma BoxAt(mem: Bytes, p: nat, hi: nat, n: Node)
    requires n.Box? && HoldsNode(mem, p, hi, n)
    ensures var c := Span(p + 1, hi - (p + 1));
            p < hi <= |mem| && Next(mem, p, hi) == Step(if n.dict then BDict(c) else BList(c), p + 1)
    ensures HoldsNodes(mem, p + 1, hi, n.inside) && EndMarkAt(mem, p + 1 + |PrintAll(n.inside)|, hi)
    ensures |Print(n)| == |PrintAll(n.inside)| + 2
  {
    hide At;
    ContainerAt(mem, p, Opener(n.dict), PrintAll(n.inside));
  }

  // Skipping nodes.

  lemma {:induction false} SkipNode(mem: Bytes, p: nat, hi: nat, n: Node, depth: nat)
    requires depth > 0 && WellFormed(n) && HoldsNode(mem, p, hi, n)
    ensures p < p + |Print(n)| <= hi <= |mem|
    ensures SkipFrom(mem, p, hi, depth) == SkipFrom(mem, p + |Print(n)|, hi, depth)
    decreases n
  {
    hide Next, SkipFrom, HoldsNode, HoldsNodes, Print, PrintAll, ValueOf;
    match n
    case Number(_, _) =>
      NumberAt(mem, p, hi, n);
      SkipStep(mem, p, hi, depth);
    case Word(_, _) =>
      WordAt(mem, p, hi, n);
      SkipStep(mem, p, hi, depth);
    case Box(_, ns) =>
      BoxAt(mem, p, hi, n);
      SkipStep(mem, p, hi, depth);
      SkipNodes(mem, p + 1, hi, ns, depth + 1);
      SkipEndMarker(mem, p + 1 + |PrintAll(ns)|, hi, depth + 1);
  }

  lemma {:induction false} SkipNodes(mem: Bytes, p: nat, hi: nat, ns: seq<Node>, depth: nat)
    requires depth > 0 && AllWellFormed(ns) && HoldsNodes(mem, p, hi, ns)
    ensures p + |PrintAll(ns)| <= hi <= |mem|
    ensures SkipFrom(mem, p, hi, depth) == SkipFrom(mem, p + |PrintAll(ns)|, hi, depth)
    decreases ns
  {
    hide Next, SkipFrom, HoldsNode, Print;
    if ns != [] {
      NodesParts(mem, p, hi, ns);
      SkipNode(mem, p, hi, ns[0], depth);
      SkipNodes(mem, p + |Print(ns[0])|, hi, ns[1..], depth);
    }
  }

  // Reading nodes.

  lemma ListNextOverNode(mem: Bytes, p: nat, hi: nat, n: Node)
    requires WellFormed(n) && HoldsNode(mem, p, hi, n)
    ensures p < p + |Print(n)| <= hi <= |mem|
    ensures ListNext(mem, p, hi) == Item(Next(mem, p, hi).b, p + |Print(n)|)
  {
    hide Next, SkipFrom, HoldsNode, HoldsNodes, Print, PrintAll, ValueOf;
    match n
    case Number(_, _) => NumberAt(mem, p, hi, n);
    case Word(_, _) => WordAt(mem, p, hi, n);
    case Box(_, ns) =>
      BoxAt(mem, p, hi, n);
      var q := p + 1 + |PrintAll(ns)|;
      SkipNodes(mem, p + 1, hi, ns, 1);
      SkipEndMarker(mem, q, hi, 1);
      SkipDone(mem, q + 1, hi);
  }

  lemma {:induction false} ReadNode(mem: Bytes, p: nat, hi: nat, n: Node)
    requires WellFormed(n) && HoldsNode(mem, p, hi, n)
    ensures p <= hi <= |mem| && ReadAt(mem, p, hi) == ValueOf(n)
    decreases n
  {
    hide Next, HoldsNode, HoldsNodes, ReadItems, ReadEntries, ValuesOf, EntriesOf, Print, PrintAll;
    match n
    case Number(_, _) => NumberAt(mem, p, hi, n);
    case Word(_, _) => WordAt(mem, p, hi, n);
    case Box(dict, ns) =>
      BoxAt(mem, p, hi, n);
      if dict { ReadPairs(mem, p + 1, hi, ns); } else { ReadNodes(mem, p + 1, hi, ns); }
  }

  /** The walk of a list finds the values of its nodes, or fails if one of them has none. */
  lemma {:induction false} ReadNodes(mem: Bytes, p: nat, hi: nat, ns: seq<Node>)
    requires AllWellFormed(ns) && HoldsNodes(mem, p, hi, ns) && EndMarkAt(mem, p + |PrintAll(ns)|, hi)
    ensures ReadItems(mem, p, hi).value == ValuesOf(ns)
    decreases ns
  {
    hide Next, SkipFrom, HoldsNode, HoldsNodes, Print, ReadValue, ValueOf;
    if ns != [] {
      NodesParts(mem, p, hi, ns);
      ListNextOverNode(mem, p, hi, ns[0]);
      ReadNode(mem, p, hi, ns[0]);
      ReadNodes(mem, p + |Print(ns[0])|, hi, ns[1..]);
    }
  }

  lemma PrintStart(mem: Bytes, p: nat, hi: nat, ns: seq<Node>)
    requires ns != [] && AllWellFormed(ns) && HoldsNodes(mem, p, hi, ns)
    ensures p < hi <= |mem| && mem[p] != CH_E
  {
    hide At, PrintAll;
    NodesParts(mem, p, hi, ns);
    Piece(mem, p, Print(ns[0]), 0, 1);
  }

  /** A box in key position ends the walk if it is empty, and spoils it otherwise. */
  lemma BoxAsKey(mem: Bytes, p: nat, hi: nat, n: Node)
    requires n.Box? && WellFormed(n) && HoldsNode(mem, p, hi, n)
    ensures p <= hi <= |mem| && ReadEntries(mem, p, hi).value == if n.inside == [] then Some([]) else None
  {
    hide Next, ListNext, DictNext, HoldsNode, HoldsNodes, ReadValue;
    BoxAt(mem, p, hi, n);
    DictNextByList(mem, p, hi);
    if n.inside != [] { PrintStart(mem, p + 1, hi, n.inside); }
    StopMeansEnd(mem, p + 1, hi);
  }

  lemma StopMeansEnd(mem: Bytes, p: nat, hi: nat)
    requires p <= hi <= |mem|
    ensures ListNext(mem, p, hi).Stop? && ListNext(mem, p, hi).code == -1 <==> EndMarkAt(mem, p, hi)
    ensures EndMarkAt(mem, p, hi) ==> ListNext(mem, p, hi).ctx == Span(p + 1, 0)
  {
    hide SkipFrom, NextInt, NextString;
  }

  /** A string or a number as last key, without a value. */
  lemma LeafAsLastKey(mem: Bytes, p: nat, hi: nat, n: Node)
    requires !n.Box? && WellFormed(n) && HoldsNode(mem, p, hi, n) && EndMarkAt(mem, p + |Print(n)|, hi)
    ensures p <= hi <= |mem| && ReadEntries(mem, p, hi).value == Some([])
  {
    hide Next, ListNext, DictNext, HoldsNode, ReadValue, Print, ValueOf;
    if n.Number? { NumberAt(mem, p, hi, n); } else { WordAt(mem, p, hi, n); }
    DictNextByList(mem, p, hi);
    StopMeansEnd(mem, p + |Print(n)|, hi);
  }

  /** A key and a value. */
  lemma PairOfNodes(mem: Bytes, p: nat, hi: nat, k: Node, v: Node)
    requires !k.Box? && WellFormed(k) && HoldsNode(mem, p, hi, k)
    requires WellFormed(v) && HoldsNode(mem, p + |Print(k)|, hi, v)
    ensures var m, q := p + |Print(k)|, p + |Print(k)| + |Print(v)|;
            && p < m < q <= hi <= |mem| && Next(mem, p, hi).next == m
            && DictNext(mem, p, hi) == Pair(Next(mem, p, hi).b, Next(mem, m, hi).b, q)
            && if k.Number? then Next(mem, p, hi).b.BInt?
               else Next(mem, p, hi).b.BString? && ReadAt(mem, p, hi) == Some(Text(k.payload))
  {
    hide Next, ListNext, DictNext, HoldsNode, Print, ValueOf, ReadItems, ReadEntries;
    if k.Number? { NumberAt(mem, p, hi, k); } else { WordAt(mem, p, hi, k); }
    DictNextByList(mem, p, hi);
    ListNextOverNode(mem, p + |Print(k)|, hi, v);
  }

  /** The walk of a dictionary finds the entries of its nodes, or fails if they have none. */
  lemma {:induction false} ReadPairs(mem: Bytes, p: nat, hi: nat, ns: seq<Node>)
    requires AllWellFormed(ns) && HoldsNodes(mem, p, hi, ns)
    requires StopsEarly(ns) || EndMarkAt(mem, p + |PrintAll(ns)|, hi)
    ensures p <= hi <= |mem| && ReadEntries(mem, p, hi).value == EntriesOf(ns)
    decreases ns
  {
    hide Next, ListNext, DictNext, SkipFrom, HoldsNode, HoldsNodes, Print, ReadValue, ValueOf;
    if ns == [] {
      EndAsKey(mem, p, hi);
    } else {
      NodesParts(mem, p, hi, ns);
      if ns[0].Box? {
        BoxAsKey(mem, p, hi, ns[0]);
      } else if |ns| == 1 {
        assert PrintAll(ns[1..]) == [];
        LeafAsLastKey(mem, p, hi, ns[0]);
      } else {
        ReadPair(mem, p, hi, ns);
      }
    }
  }

  lemma EndAsKey(mem: Bytes, p: nat, hi: nat)
    requires EndMarkAt(mem, p, hi)
    ensures DictNext(mem, p, hi) == DictStop(-1, Span(p + 1, 0)) && ReadEntries(mem, p, hi).value == Some([])
  {
    hide ReadValue;
  }

  lemma {:induction false} ReadPair(mem: Bytes, p: nat, hi: nat, ns: seq<Node>)
    requires |ns| > 1 && !ns[0].Box? && AllWellFormed(ns) && HoldsNodes(mem, p, hi, ns)
    requires StopsEarly(ns) || EndMarkAt(mem, p + |PrintAll(ns)|, hi)
    ensures p <= hi <= |mem| && ReadEntries(mem, p, hi).value == EntriesOf(ns)
    decreases ns, 0
  {
    hide Next, DictNext, HoldsNode, HoldsNodes, Print, PrintAll, ReadValue, ReadAt, ReadEntries, EntriesOf, ValueOf;
    hide WellFormed, AllWellFormed, StopsEarly;
    EntriesOfPair(ns);
    var rest := ns[1..];
    NodesParts(mem, p, hi, ns);
    NodesParts(mem, p + |Print(ns[0])|, hi, rest);
    PairOfNodes(mem, p, hi, ns[0], rest[0]);
    var q := p + |Print(ns[0])| + |Print(rest[0])|;
    ReadNode(mem, p + |Print(ns[0])|, hi, rest[0]);
    ReadPairs(mem, q, hi, rest[1..]);
    ReadOnePair(mem, p, hi);
  }

  lemma EntriesOfPair(ns: seq<Node>)
    requires |ns| > 1 && !ns[0].Box? && AllWellFormed(ns)
    ensures WellFormed(ns[0]) && WellFormed(ns[1..][0]) && AllWellFormed(ns[1..][1..])
    ensures StopsEarly(ns) <==> StopsEarly(ns[1..][1..])
    ensures var v, es := ValueOf(ns[1..][0]), EntriesOf(ns[1..][1..]);
            EntriesOf(ns) ==
            if ns[0].Word? && v.Some? && es.Some? then Some([Entry(ns[0].payload, v.value)] + es.value) else None
  {
    hide ValueOf;
    assert AllWellFormed(ns[1..]) && WellFormed(ns[1..][0]);
  }

  lemma ReadOnePair(mem: Bytes, p: nat, hi: nat)
    requires p <= hi <= |mem| && DictNext(mem, p, hi).Pair? && Advances(DictNext(mem, p, hi).k)
    requires DictNext(mem, p, hi).k == Next(mem, p, hi).b
    requires DictNext(mem, p, hi).v == Next(mem, Next(mem, p, hi).next, hi).b
    ensures var k, v := ReadAt(mem, p, hi), ReadAt(mem, Next(mem, p, hi).next, hi);
            var es := ReadEntries(mem, DictNext(mem, p, hi).next, hi).value;
            ReadEntries(mem, p, hi).value ==
            if DictNext(mem, p, hi).k.BString? && v.Some? && es.Some? then
              Some([Entry(k.value.bytes, v.value)] + es.value)
            else None
  {
    hide Next, DictNext, ReadItems;
  }

  // The syntax is unambiguous.

  lemma SameNumber(mem: Bytes, p: nat, hi: nat, n: Node, n': Node)
    requires n.Number? && WellFormed(n) && HoldsNode(mem, p, hi, n)
    requires n'.Number? && WellFormed(n') && HoldsNode(mem, p, hi, n')
    ensures n == n'
  {
    hide Next, Print, ValueOf, At;
    NumberText(mem, p, n);
    NumberText(mem, p, n');
    NumberAt(mem, p, hi, n);
    NumberAt(mem, p, hi, n');
  }

  lemma SameWord(mem: Bytes, p: nat, hi: nat, n: Node, n': Node)
    requires n.Word? && WellFormed(n) && HoldsNode(mem, p, hi, n)
    requires n'.Word? && WellFormed(n') && HoldsNode(mem, p, hi, n')
    ensures n == n'
  {
    hide Next, Print, At, WellFormed;
    WordText(mem, p, n);
    WordText(mem, p, n');
    WordAt(mem, p, hi, n);
    WordAt(mem, p, hi, n');
  }

  lemma SameKind(mem: Bytes, p: nat, hi: nat, n: Node)
    requires WellFormed(n) && HoldsNode(mem, p, hi, n)
    ensures p <= hi <= |mem|
    ensures match n
            case Number(_, _) => Next(mem, p, hi).b.BInt?
            case Word(_, _) => Next(mem, p, hi).b.BString?
            case Box(dict, _) => if dict then Next(mem, p, hi).b.BDict? else Next(mem, p, hi).b.BList?
  {
    hide Next, HoldsNode, Print, ValueOf, WellFormed;
    match n
    case Number(_, _) => NumberAt(mem, p, hi, n);
    case Word(_, _) => WordAt(mem, p, hi, n);
    case Box(_, _) => BoxAt(mem, p, hi, n);
  }

  /** No bytes begin with two different nodes. */
  lemma {:induction false} SameNode(mem: Bytes, p: nat, hi: nat, n: Node, n': Node)
    requires WellFormed(n) && HoldsNode(mem, p, hi, n)
    requires WellFormed(n') && HoldsNode(mem, p, hi, n')
    ensures n == n'
    decreases n
  {
    hide Next, HoldsNode, HoldsNodes, Print, PrintAll;
    SameKind(mem, p, hi, n);
    SameKind(mem, p, hi, n');
    match n
    case Number(_, _) => SameNumber(mem, p, hi, n, n');
    case Word(_, _) => SameWord(mem, p, hi, n, n');
    case Box(_, ns) =>
      BoxAt(mem, p, hi, n);
      BoxAt(mem, p, hi, n');
      SameNodes(mem, p + 1, hi, ns, n'.inside);
  }

  lemma {:induction false} SameNodes(mem: Bytes, p: nat, hi: nat, ns: seq<Node>, ns': seq<Node>)
    requires AllWellFormed(ns) && HoldsNodes(mem, p, hi, ns) && EndMarkAt(mem, p + |PrintAll(ns)|, hi)
    requires AllWellFormed(ns') && HoldsNodes(mem, p, hi, ns') && EndMarkAt(mem, p + |PrintAll(ns')|, hi)
    ensures ns == ns'
    decreases ns
  {
    hide Next, HoldsNode, HoldsNodes, Print, WellFormed;
    if ns != [] { PrintStart(mem, p, hi, ns); }
    if ns' != [] { PrintStart(mem, p, hi, ns'); }
    if ns != [] && ns' != [] {
      NodesParts(mem, p, hi, ns);
      NodesParts(mem, p, hi, ns');
      SameNode(mem, p, hi, ns[0], ns'[0]);
      SameNodes(mem, p + |Print(ns[0])|, hi, ns[1..], ns'[1..]);
      assert ns == [ns[0]] + ns[1..] && ns' == [ns'[0]] + ns'[1..];
    }
  }
}

/**
 * The two accounts of reading together: the iterators read a value if and only if the bytes are a
 * node with that value, and the skipper lands if and only if it passes nodes and an end marker.
 */
module BenrParse {
  import opened ByteString
  import opened Numerals
  import opened BencodeTree
  import opened BenrToken
  import opened BenrSkip
  import opened BenrIter
  import opened BenrRoundTrip
  import opened BenrReemit
  import opened BenrSyntax

  // Finding the nodes.

  lemma MovedNode(mem: Bytes, p: nat, hi: nat, mem': Bytes, hi': nat, n: Node)
    requires HoldsNode(mem, p, hi, n) && p + |Print(n)| <= hi' <= |mem'|
    requires Agree(mem, mem', p, p + |Print(n)|)
    ensures HoldsNode(mem', p, hi', n)
  {
    hide Print;
  }

  lemma FindLeaf(mem: Bytes, p: nat, hi: nat) returns (n: Node)
    requires p <= hi <= |mem| && (Next(mem, p, hi).b.BInt? || Next(mem, p, hi).b.BString?)
    ensures WellFormed(n) && HoldsNode(mem, p, hi, n) && p + |Print(n)| == Next(mem, p, hi).next
    ensures n.Word? <==> Next(mem, p, hi).b.BString?
    ensures !n.Box?
  {
    hide Next, Decimal, AllDigits, ToSigned64;
    var q := Next(mem, p, hi).next;
    if Next(mem, p, hi).b.BInt? {
      IntegerToken(mem, p, hi);
      var s := mem[p..q];
      var d := DigitsFrom(s);
      n := Number(d == 2, s[d..|s| - 1]);
      assert Print(n) == s;
    } else {
      var b := Next(mem, p, hi).b;
      StringDigits(mem, p, hi);
      StringHasDigits(mem, p, hi);
      n := Word(mem[p..b.start - 1], mem[b.start..b.start + b.len]);
      assert Print(n) == mem[p..q];
    }
  }

  lemma StringHasDigits(mem: Bytes, p: nat, hi: nat)
    requires p <= hi <= |mem| && Next(mem, p, hi).b.BString?
    ensures p < Next(mem, p, hi).b.start - 1
  {
    hide ScanUint, NextInt, Decimal;
    StringDigits(mem, p, hi);
    assert IsDigit(mem[p]);
  }

  lemma ConsNodes(mem: Bytes, p: nat, hi: nat, n: Node, ns: seq<Node>)
    requires WellFormed(n) && AllWellFormed(ns)
    requires HoldsNode(mem, p, hi, n) && HoldsNodes(mem, p + |Print(n)|, hi, ns)
    ensures AllWellFormed([n] + ns) && HoldsNodes(mem, p, hi, [n] + ns)
    ensures |PrintAll([n] + ns)| == |Print(n)| + |PrintAll(ns)|
  {
    hide At, Print;
    assert ([n] + ns)[1..] == ns;
    AtSplit(mem, p, Print(n), PrintAll(ns));
  }

  lemma NoNodes(mem: Bytes, p: nat, hi: nat)
    requires p <= hi <= |mem|
    ensures AllWellFormed([]) && HoldsNodes(mem, p, hi, []) && PrintAll([]) == []
  {
  }

  lemma WrapBox(mem: Bytes, p: nat, hi: nat, dict: bool, ns: seq<Node>)
    requires p < hi <= |mem| && mem[p] == Opener(dict) && AllWellFormed(ns)
    requires HoldsNodes(mem, p + 1, hi, ns) && EndMarkAt(mem, p + 1 + |PrintAll(ns)|, hi)
    ensures WellFormed(Box(dict, ns)) && HoldsNode(mem, p, hi, Box(dict, ns))
    ensures |Print(Box(dict, ns))| == |PrintAll(ns)| + 2
  {
    hide PrintAll;
    var q := p + 1 + |PrintAll(ns)|;
    assert mem[p..p + 1] == [Opener(dict)] && mem[q..q + 1] == [CH_E];
    AtSplit(mem, p, [Opener(dict)], PrintAll(ns));
    AtSplit(mem, p, [Opener(dict)] + PrintAll(ns), [CH_E]);
  }

  lemma ContainerByte(mem: Bytes, p: nat, hi: nat)
    requires p <= hi <= |mem| && IsContainer(Next(mem, p, hi).b)
    ensures p < hi && mem[p] == Opener(Next(mem, p, hi).b.BDict?)
  {
    hide ScanUint;
  }

  /** What the skipper passes over, up to the end marker it lands behind, is nodes. */
  lemma {:induction false} FindSkipped(mem: Bytes, p: nat, hi: nat) returns (ns: seq<Node>)
    requires p <= hi <= |mem| && Skip(mem, p, hi).Landed?
    ensures AllWellFormed(ns) && HoldsNodes(mem, p, hi, ns)
    ensures EndMarkAt(mem, p + |PrintAll(ns)|, hi) && Skip(mem, p, hi).next == p + |PrintAll(ns)| + 1
    decreases hi - p
  {
    hide Next, SkipFrom, HoldsNodes, HoldsNode, PrintAll, Print, WellFormed;
    var s := Next(mem, p, hi);
    SkipStep(mem, p, hi, 1);
    if s.b.BEnd? {
      SkipDone(mem, p + 1, hi);
      NoNodes(mem, p, hi);
      ns := [];
    } else {
      var n, m;
      if IsContainer(s.b) {
        SkipSplit(mem, p + 1, hi, 1, 1);
        var inside := FindSkipped(mem, p + 1, hi);
        ContainerByte(mem, p, hi);
        WrapBox(mem, p, hi, s.b.BDict?, inside);
        n := Box(s.b.BDict?, inside);
      } else {
        TokenKinds(mem, p, hi);
        n := FindLeaf(mem, p, hi);
      }
      m := p + |Print(n)|;
      var rest := FindSkipped(mem, m, hi);
      ConsNodes(mem, p, hi, n, rest);
      ns := [n] + rest;
    }
  }

  lemma TokenKinds(mem: Bytes, p: nat, hi: nat)
    requires p <= hi <= |mem| && Advances(Next(mem, p, hi).b)
    ensures var b := Next(mem, p, hi).b; b.BInt? || b.BString? || b.BEnd? || IsContainer(b)
  {
    hide Next;
  }

  /** What a list iterator steps over is a node. */
  lemma FindNode(mem: Bytes, p: nat, hi: nat) returns (n: Node)
    requires p <= hi <= |mem| && ListNext(mem, p, hi).Item? && Advances(ListNext(mem, p, hi).b)
    ensures WellFormed(n) && HoldsNode(mem, p, hi, n) && ListNext(mem, p, hi).next == p + |Print(n)|
  {
    hide Next, SkipFrom, HoldsNode, HoldsNodes, Print, PrintAll, WellFormed;
    var s := Next(mem, p, hi);
    if IsContainer(s.b) {
      var inside := FindSkipped(mem, p + 1, hi);
      ContainerByte(mem, p, hi);
      WrapBox(mem, p, hi, s.b.BDict?, inside);
      n := Box(s.b.BDict?, inside);
    } else {
      TokenKinds(mem, p, hi);
      n := FindLeaf(mem, p, hi);
    }
  }

  lemma {:induction false} FindItems(mem: Bytes, p: nat, hi: nat) returns (ns: seq<Node>)
    requires p <= hi <= |mem| && ReadItems(mem, p, hi).value.Some?
    ensures AllWellFormed(ns) && HoldsNodes(mem, p, hi, ns) && EndMarkAt(mem, p + |PrintAll(ns)|, hi)
    decreases hi - p
  {
    hide Next, ListNext, HoldsNode, HoldsNodes, Print, PrintAll, ReadValue, WellFormed;
    StopMeansEnd(mem, p, hi);
    match ListNext(mem, p, hi)
    case Stop(_, _) =>
      NoNodes(mem, p, hi);
      ns := [];
    case Item(_, q) =>
      var n := FindNode(mem, p, hi);
      var rest := FindItems(mem, q, hi);
      ConsNodes(mem, p, hi, n, rest);
      ns := [n] + rest;
  }

  /** The nodes of the call with which a dictionary walk ends. */
  lemma FindTail(mem: Bytes, p: nat, hi: nat) returns (ns: seq<Node>)
    requires p <= hi <= |mem| && DictNext(mem, p, hi).DictStop? && DictNext(mem, p, hi).code == -1
    ensures AllWellFormed(ns) && HoldsNodes(mem, p, hi, ns)
    ensures StopsEarly(ns) || EndMarkAt(mem, p + |PrintAll(ns)|, hi)
  {
    hide Next, ListNext, DictNext, HoldsNode, HoldsNodes, Print, PrintAll, WellFormed;
    DictNextByList(mem, p, hi);
    NoNodes(mem, p, hi);
    ns := [];
    if !Next(mem, p, hi).b.BEnd? {
      StopMeansEnd(mem, Next(mem, p, hi).next, hi);
      var n := FindLastKey(mem, p, hi);
      NoNodes(mem, p + |Print(n)|, hi);
      ConsNodes(mem, p, hi, n, []);
      ns := [n] + [];
    }
  }

  lemma FindLastKey(mem: Bytes, p: nat, hi: nat) returns (n: Node)
    requires p <= hi <= |mem| && !Next(mem, p, hi).b.BEnd? && EndMarkAt(mem, Next(mem, p, hi).next, hi)
    ensures WellFormed(n) && HoldsNode(mem, p, hi, n) && p + |Print(n)| <= hi
    ensures if n.Box? then n.inside == [] else EndMarkAt(mem, p + |Print(n)|, hi)
  {
    hide Next, HoldsNode, HoldsNodes, Print, PrintAll, WellFormed;
    var k := Next(mem, p, hi);
    if IsContainer(k.b) {
      ContainerByte(mem, p, hi);
      NoNodes(mem, p + 1, hi);
      WrapBox(mem, p, hi, k.b.BDict?, []);
      n := Box(k.b.BDict?, []);
    } else {
      AdvancesBeforeEnd(mem, p, hi);
      TokenKinds(mem, p, hi);
      n := FindLeaf(mem, p, hi);
    }
  }

  lemma AdvancesBeforeEnd(mem: Bytes, p: nat, hi: nat)
    requires p <= hi <= |mem| && !Next(mem, p, hi).b.BEnd? && EndMarkAt(mem, Next(mem, p, hi).next, hi)
    ensures Advances(Next(mem, p, hi).b)
  {
    hide Next;
  }

  lemma {:induction false} FindPairs(mem: Bytes, p: nat, hi: nat) returns (ns: seq<Node>)
    requires p <= hi <= |mem| && ReadEntries(mem, p, hi).value.Some?
    ensures AllWellFormed(ns) && HoldsNodes(mem, p, hi, ns)
    ensures StopsEarly(ns) || EndMarkAt(mem, p + |PrintAll(ns)|, hi)
    decreases hi - p
  {
    hide Next, ListNext, DictNext, HoldsNode, HoldsNodes, Print, PrintAll, ReadValue, WellFormed;
    if DictNext(mem, p, hi).DictStop? {
      ns := FindTail(mem, p, hi);
    } else {
      var k, v := FindPair(mem, p, hi);
      var q := DictNext(mem, p, hi).next;
      var rest := FindPairs(mem, q, hi);
      ConsNodes(mem, p + |Print(k)|, hi, v, rest);
      ConsNodes(mem, p, hi, k, [v] + rest);
      ns := [k] + ([v] + rest);
      assert ns[1..] == [v] + rest && ns[1..][1..] == rest;
    }
  }

  /** The two nodes of a readable entry. */
  lemma FindPair(mem: Bytes, p: nat, hi: nat) returns (k: Node, v: Node)
    requires p <= hi <= |mem| && DictNext(mem, p, hi).Pair? && ReadEntries(mem, p, hi).value.Some?
    ensures k.Word? && WellFormed(k) && HoldsNode(mem, p, hi, k)
    ensures WellFormed(v) && HoldsNode(mem, p + |Print(k)|, hi, v)
    ensures DictNext(mem, p, hi).next == p + |Print(k)| + |Print(v)|
    ensures ReadEntries(mem, DictNext(mem, p, hi).next, hi).value.Some?
  {
    hide Next, ListNext, DictNext, HoldsNode, Print, ReadValue, WellFormed;
    DictNextByList(mem, p, hi);
    k := FindLeaf(mem, p, hi);
    v := FindNode(mem, p + |Print(k)|, hi);
  }

  // The two accounts together.

  /**
   * The bytes from p on begin with the node. Only a dictionary at the very top need not be complete,
   * if its walk ends early: nothing skips over it.
   */
  predicate Begins(mem: Bytes, p: nat, hi: nat, n: Node) {
    || HoldsNode(mem, p, hi, n)
    || (n.Box? && n.dict && StopsEarly(n.inside)
        && p < hi <= |mem| && mem[p] == CH_D && HoldsNodes(mem, p + 1, hi, n.inside))
  }

  lemma ReadBegun(mem: Bytes, p: nat, hi: nat, n: Node)
    requires p <= hi <= |mem| && WellFormed(n) && Begins(mem, p, hi, n)
    ensures ReadAt(mem, p, hi) == ValueOf(n)
  {
    hide HoldsNode, HoldsNodes, ReadEntries, EntriesOf, NextInt, NextString, ReadItems;
    if HoldsNode(mem, p, hi, n) {
      ReadNode(mem, p, hi, n);
    } else {
      ReadPairs(mem, p + 1, hi, n.inside);
    }
  }

  lemma FindBegun(mem: Bytes, p: nat, hi: nat) returns (n: Node)
    requires p <= hi <= |mem| && ReadAt(mem, p, hi).Some?
    ensures WellFormed(n) && Begins(mem, p, hi, n)
  {
    hide Next, HoldsNode, HoldsNodes, ReadItems, ReadEntries, PrintAll, Print, AllWellFormed;
    var b := Next(mem, p, hi).b;
    if IsContainer(b) {
      var ns;
      ContainerByte(mem, p, hi);
      if b.BDict? { ns := FindPairs(mem, p + 1, hi); } else { ns := FindItems(mem, p + 1, hi); }
      n := Box(b.BDict?, ns);
      if EndMarkAt(mem, p + 1 + |PrintAll(ns)|, hi) { WrapBox(mem, p, hi, b.BDict?, ns); }
    } else {
      n := FindLeaf(mem, p, hi);
    }
  }

  lemma ReadIsReadAt(mem: Bytes, p: nat, hi: nat)
    requires p <= hi <= |mem|
    ensures Read(mem, p, hi).value == ReadAt(mem, p, hi)
  {
    hide Next, ReadItems, ReadEntries;
  }

  /**
   * On every byte string: the walk through the iterators reads t if and only if the bytes begin with
   * a node whose value is t. Digits, wrapped numbers, dropped keys and unreadable ones included.
   */
  lemma {:induction false} ReadsIffSyntax(mem: Bytes, p: nat, hi: nat, t: Tree)
    requires p <= hi <= |mem|
    ensures Read(mem, p, hi).value == Some(t) <==>
            exists n :: WellFormed(n) && Begins(mem, p, hi, n) && ValueOf(n) == Some(t)
  {
    hide Read, ReadAt, Begins, ValueOf, WellFormed;
    ReadIsReadAt(mem, p, hi);
    if Read(mem, p, hi).value == Some(t) {
      var n := FindBegun(mem, p, hi);
      ReadBegun(mem, p, hi, n);
    }
    if exists n :: WellFormed(n) && Begins(mem, p, hi, n) && ValueOf(n) == Some(t) {
      var n :| WellFormed(n) && Begins(mem, p, hi, n) && ValueOf(n) == Some(t);
      ReadBegun(mem, p, hi, n);
    }
  }

  /** The skipper lands at q if and only if nodes and an end marker fill the bytes up to q. */
  lemma {:induction false} SkipsIffSyntax(mem: Bytes, p: nat, hi: nat, q: nat)
    requires p <= hi <= |mem|
    ensures Skip(mem, p, hi) == Landed(q) <==>
            exists ns :: AllWellFormed(ns) && HoldsNodes(mem, p, hi, ns)
              && EndMarkAt(mem, p + |PrintAll(ns)|, hi) && q == p + |PrintAll(ns)| + 1
  {
    hide AllWellFormed, HoldsNodes, PrintAll, SkipFrom, Next;
    if Skip(mem, p, hi) == Landed(q) {
      var ns := FindSkipped(mem, p, hi);
      assert q == p + |PrintAll(ns)| + 1;
    }
    forall ns | AllWellFormed(ns) && HoldsNodes(mem, p, hi, ns) && EndMarkAt(mem, p + |PrintAll(ns)|, hi)
      ensures Skip(mem, p, hi) == Landed(p + |PrintAll(ns)| + 1)
    {
      SkipNodes(mem, p, hi, ns, 1);
      SkipEndMarker(mem, p + |PrintAll(ns)|, hi, 1);
      SkipDone(mem, p + |PrintAll(ns)| + 1, hi);
    }
  }
}

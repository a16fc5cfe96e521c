/**
 * What the end of a walk says about the container. A list iterator reports its end exactly where the
 * skipper lands; a dict iterator does too unless a key was itself a container (benr.c:264 and 270-279).
 */
module BenrClosed {
  import opened ByteString
  import opened BencodeTree
  import opened BenrToken
  import opened BenrSkip
  import opened BenrIter
  import opened BenrRoundTrip
  import opened BenrBounds
  import opened BenrSyntax
  import opened BenrParse

  /**
   * Calling a list iterator until it returns a negative value or stops moving: where it reported
   * the end, or the code of what it got stuck at.
   */
  function ListWalk(mem: Bytes, p: nat, hi: nat): SkipResult
    requires p <= hi <= |mem|
    decreases hi - p
  {
    match ListNext(mem, p, hi)
    case Stop(code, ctx) => if code == -1 then Landed(ctx.start) else Failed(code)
    case Item(b, q) => if q == p then Failed(FailureCode(b)) else ListWalk(mem, q, hi)
  }

  /** One step of a list iterator, beside the skipper on the level it walks. */
  lemma ListStepSkips(mem: Bytes, p: nat, hi: nat, depth: nat)
    requires p <= hi <= |mem| && depth > 0
    ensures SkipFrom(mem, p, hi, depth) ==
            match ListNext(mem, p, hi)
            case Stop(code, ctx) => if code == -1 then SkipFrom(mem, ctx.start, hi, depth - 1) else Failed(code)
            case Item(b, q) => if q == p then Failed(FailureCode(b)) else SkipFrom(mem, q, hi, depth)
  {
    hide Next, SkipFrom, KindCode;
    var s := Next(mem, p, hi);
    SkipStep(mem, p, hi, depth);
    if IsContainer(s.b) { SkipSplit(mem, s.next, hi, 1, depth); }
  }

  /** On every input a list iterator ends, or fails, exactly where and as the skipper does. */
  lemma {:induction false} ListWalkIsSkip(mem: Bytes, p: nat, hi: nat)
    requires p <= hi <= |mem|
    ensures ListWalk(mem, p, hi) == Skip(mem, p, hi)
    decreases hi - p
  {
    hide ListNext, SkipFrom, KindCode;
    ListStepSkips(mem, p, hi, 1);
    match ListNext(mem, p, hi) {
      case Stop(code, ctx) => SkipDone(mem, ctx.start, hi);
      case Item(_, q) => if q > p { ListWalkIsSkip(mem, q, hi); }
    }
  }

  /** The end of a dictionary walk, and how many keys on the way were containers. */
  datatype WalkEnd = Ended(at: nat, open: nat) | Broken(code: int)

  function Opened(b: Benr): nat { if IsContainer(b) then 1 else 0 }

  function DictWalk(mem: Bytes, p: nat, hi: nat): (r: WalkEnd)
    requires p <= hi <= |mem|
    ensures r.Ended? ==> p < r.at <= hi
    decreases hi - p
  {
    var k := Next(mem, p, hi).b;
    match DictNext(mem, p, hi)
    case DictStop(code, ctx) => if code == -1 then Ended(ctx.start, Opened(k)) else Broken(code)
    case Pair(_, _, q) =>
      if q == p then Broken(FailureCode(k))
      else match DictWalk(mem, q, hi)
           case Ended(at, open) => Ended(at, open + Opened(k))
           case Broken(code) => Broken(code)
  }

  lemma StuckKey(mem: Bytes, p: nat, hi: nat)
    requires p <= hi <= |mem| && !Advances(Next(mem, p, hi).b)
    ensures var b := Next(mem, p, hi).b; ListNext(mem, p, hi) == Item(b, p) && DictNext(mem, p, hi) == Pair(b, b, p)
  {
    hide Next, SkipFrom;
  }

  /**
   * On every input: where a dict iterator reports its end, the skipper is still inside as many levels
   * as keys were containers; where it fails, the skipper fails with the same code.
   */
  lemma {:induction false} DictWalkSkips(mem: Bytes, p: nat, hi: nat, depth: nat)
    requires p <= hi <= |mem| && depth > 0
    ensures SkipFrom(mem, p, hi, depth) ==
            match DictWalk(mem, p, hi)
            case Ended(at, open) => SkipFrom(mem, at, hi, depth - 1 + open)
            case Broken(code) => Failed(code)
    decreases hi - p
  {
    hide Next, ListNext, SkipFrom, KindCode, DictNext;
    DictNextByList(mem, p, hi);
    var k := Next(mem, p, hi);
    SkipStep(mem, p, hi, depth);
    if !Advances(k.b) {
      StuckKey(mem, p, hi);
    } else if !k.b.BEnd? {
      var d := depth + Opened(k.b);
      ListStepSkips(mem, k.next, hi, d);
      match ListNext(mem, k.next, hi) {
        case Stop(_, _) =>
        case Item(_, q) => DictWalkSkips(mem, q, hi, d);
      }
    }
  }

  /**
   * A dict iterator that reports its end has left its dictionary exactly if no key was a container;
   * one that is in a closed dictionary always gets there, and not beyond the end marker.
   */
  lemma {:induction false} DictEndsIffClosed(mem: Bytes, p: nat, hi: nat)
    requires p <= hi <= |mem|
    ensures match DictWalk(mem, p, hi)
            case Ended(at, open) => Skip(mem, p, hi) == Landed(at) <==> open == 0
            case Broken(code) => Skip(mem, p, hi) == Failed(code)
    ensures Skip(mem, p, hi).Landed? ==>
              DictWalk(mem, p, hi).Ended? && DictWalk(mem, p, hi).at <= Skip(mem, p, hi).next
  {
    hide DictWalk, SkipFrom;
    DictWalkSkips(mem, p, hi, 1);
    match DictWalk(mem, p, hi) {
      case Ended(at, open) => if open == 0 { SkipDone(mem, at, hi); }
      case Broken(_) =>
    }
  }

  // Walks that read every child.

  /** Where the last call of a readable dictionary walk begins. */
  function LastCallAt(mem: Bytes, p: nat, hi: nat): (r: nat)
    requires p <= hi <= |mem|
    ensures p <= r <= hi
    decreases hi - p
  {
    match DictNext(mem, p, hi)
    case DictStop(_, _) => p
    case Pair(_, _, q) => if q == p then p else LastCallAt(mem, q, hi)
  }

  lemma {:induction false} ItemsAreClosed(mem: Bytes, p: nat, hi: nat)
    requires p <= hi <= |mem| && ReadItems(mem, p, hi).value.Some?
    ensures ListWalk(mem, p, hi).Landed?
    decreases hi - p
  {
    hide ListNext, ReadValue;
    match ListNext(mem, p, hi)
    case Stop(_, _) =>
    case Item(_, q) => ItemsAreClosed(mem, q, hi);
  }

  /** A list all of whose children can be read was closed, and its walk ends where it was. */
  lemma {:induction false} ReadListIsClosed(mem: Bytes, p: nat, hi: nat)
    requires p <= hi <= |mem| && ReadItems(mem, p, hi).value.Some?
    ensures Skip(mem, p, hi).Landed? && ListWalk(mem, p, hi) == Skip(mem, p, hi)
  {
    hide ListWalk, SkipFrom, ReadItems;
    ItemsAreClosed(mem, p, hi);
    ListWalkIsSkip(mem, p, hi);
  }

  lemma {:induction false} EntriesOpenAtMostOnce(mem: Bytes, p: nat, hi: nat)
    requires p <= hi <= |mem| && ReadEntries(mem, p, hi).value.Some?
    ensures DictWalk(mem, p, hi).Ended?
    ensures DictWalk(mem, p, hi).open == Opened(Next(mem, LastCallAt(mem, p, hi), hi).b)
    decreases hi - p
  {
    hide Next, DictNext, ReadValue;
    match DictNext(mem, p, hi)
    case DictStop(_, _) =>
    case Pair(k, _, q) =>
      PairParts(mem, p, hi);
      EntriesOpenAtMostOnce(mem, q, hi);
  }

  /**
   * A dictionary all of whose entries can be read was closed, where its walk ends, if and only if
   * the last call on the iterator did not find a container where a key should be.
   */
  lemma {:induction false} ReadDictIsClosedIff(mem: Bytes, p: nat, hi: nat)
    requires p <= hi <= |mem| && ReadEntries(mem, p, hi).value.Some?
    ensures DictWalk(mem, p, hi).Ended?
    ensures Skip(mem, p, hi) == Landed(DictWalk(mem, p, hi).at) <==>
            !IsContainer(Next(mem, LastCallAt(mem, p, hi), hi).b)
  {
    hide Next, DictWalk, SkipFrom, ReadEntries, LastCallAt;
    EntriesOpenAtMostOnce(mem, p, hi);
    DictEndsIffClosed(mem, p, hi);
  }

  /** The smallest witness: a dictionary that is read although it is never closed. */
  lemma UnclosedDictIsRead()
    ensures Read([CH_D, CH_L, CH_E], 0, 3).value == Some(Dict([]))
    ensures Skip([CH_D, CH_L, CH_E], 1, 3).Failed?
  {
    var mem := [CH_D, CH_L, CH_E];
    SkipStep(mem, 1, 3, 1);
    SkipStep(mem, 2, 3, 2);
    SkipStep(mem, 3, 3, 1);
  }

  /**
   * Whatever its last call finds makes no difference to a readable dictionary: an end marker in that
   * place gives the same entries. So a last key without a value, of any kind, is silently dropped.
   */
  lemma {:induction false} DanglingKeyIsDropped(mem: Bytes, p: nat, hi: nat)
    requires p <= hi <= |mem| && ReadEntries(mem, p, hi).value.Some?
    ensures var d := LastCallAt(mem, p, hi);
            var cut := mem[..d] + [CH_E];
            ReadEntries(cut, p, d + 1).value == ReadEntries(mem, p, hi).value
  {
    hide ReadEntries, LastCallAt;
    var d := LastCallAt(mem, p, hi);
    CutWalk(mem, p, hi, mem[..d] + [CH_E], d);
  }

  lemma {:induction false} CutWalk(mem: Bytes, p: nat, hi: nat, cut: Bytes, d: nat)
    requires p <= hi <= |mem| && ReadEntries(mem, p, hi).value.Some?
    requires d == LastCallAt(mem, p, hi) && cut == mem[..d] + [CH_E]
    ensures ReadEntries(cut, p, d + 1).value == ReadEntries(mem, p, hi).value
    decreases hi - p
  {
    hide Next, DictNext, ReadValue, ReadAt, HoldsNode, Print, WellFormed;
    match DictNext(mem, p, hi)
    case DictStop(_, _) => EndAsKey(cut, p, d + 1);
    case Pair(_, _, q) =>
      var k, v := FindPair(mem, p, hi);
      CutWalk(mem, q, hi, cut, d);
      SamePair(mem, p, hi, cut, d + 1, k, v);
  }

  /** A key and a value that both memories hold are the same first entry in both. */
  lemma SamePair(mem: Bytes, p: nat, hi: nat, mem': Bytes, hi': nat, k: Node, v: Node)
    requires k.Word? && WellFormed(k) && HoldsNode(mem, p, hi, k)
    requires WellFormed(v) && HoldsNode(mem, p + |Print(k)|, hi, v)
    requires p + |Print(k)| + |Print(v)| <= hi' <= |mem'|
    requires Agree(mem, mem', p, p + |Print(k)| + |Print(v)|)
    requires var q := p + |Print(k)| + |Print(v)|;
             q <= hi <= |mem| && ReadEntries(mem', q, hi').value == ReadEntries(mem, q, hi).value
    ensures ReadEntries(mem', p, hi').value == ReadEntries(mem, p, hi).value
  {
    hide Next, DictNext, ReadValue, ReadEntries, ReadAt, HoldsNode, Print, WellFormed, ValueOf;
    var m := p + |Print(k)|;
    MovedNode(mem, p, hi, mem', hi', k);
    MovedNode(mem, m, hi, mem', hi', v);
    PairOfNodes(mem, p, hi, k, v);
    PairOfNodes(mem', p, hi', k, v);
    ReadNode(mem, m, hi, v);
    ReadNode(mem', m, hi', v);
    ReadOnePair(mem, p, hi);
    ReadOnePair(mem', p, hi');
  }
}

/**
 * When the scanning loop of krpc_msg_parse ends: the iterator answers an error or the end of the input
 * with success, so on some datagrams it never does.
 */
module KrpcScan {
  import opened ByteString
  import opened BencodeTree
  import opened BenrToken
  import opened BenrSkip
  import opened BenrIter
  import opened BenrBounds
  import opened Krpc

  lemma PairOrStop(mem: Bytes, p: nat, hi: nat)
    requires p <= hi <= |mem|
    ensures var k := Next(mem, p, hi);
            var v := Next(mem, k.next, hi);
            match DictNext(mem, p, hi)
            case Pair(x, y, q) =>
              && x == k.b && y == v.b && !k.b.BEnd? && !v.b.BEnd?
              && if IsContainer(v.b) then Skip(mem, v.next, hi) == Landed(q) else q == v.next
            case DictStop(_, _) => k.b.BEnd? || v.b.BEnd? || (IsContainer(v.b) && Skip(mem, v.next, hi).Failed?)
  {
    hide Next, SkipFrom;
  }

  /** Where the iterator stands after n calls that all returned 0; None if one of them did not. */
  function DictAfter(mem: Bytes, p: nat, hi: nat, n: nat): (r: Option<nat>)
    requires p <= hi <= |mem|
    ensures r.Some? ==> p <= r.value <= hi
    decreases n
  {
    if n == 0 then Some(p)
    else
      match DictNext(mem, p, hi)
      case DictStop(_, _) => None
      case Pair(_, _, q) => DictAfter(mem, q, hi, n - 1)
  }

  /** At p, in key position, the tokenizer reports an error or has run out of input. */
  predicate StuckAt(mem: Bytes, p: nat, hi: nat)
    requires p <= hi <= |mem|
  {
    !Advances(Next(mem, p, hi).b)
  }

  lemma {:induction false} StuckForever(mem: Bytes, p: nat, hi: nat, n: nat)
    requires p <= hi <= |mem| && StuckAt(mem, p, hi)
    ensures DictAfter(mem, p, hi, n) == Some(p)
    decreases n
  {
    hide Next, SkipFrom;
    if n > 0 { StuckForever(mem, p, hi, n - 1); }
  }

  lemma {:induction false} ScanEnds(mem: Bytes, p: nat, hi: nat, s: Slots) returns (n: nat)
    requires p <= hi <= |mem| && ScanDict(mem, p, hi, s).Some?
    ensures DictAfter(mem, p, hi, n).None?
    decreases hi - p
  {
    hide DictNext;
    match DictNext(mem, p, hi)
    case DictStop(_, _) => n := 1;
    case Pair(k, v, q) =>
      var m := ScanEnds(mem, q, hi, Store(mem, s, k, v));
      n := m + 1;
  }

  lemma {:induction false} ScanGetsStuck(mem: Bytes, p: nat, hi: nat, s: Slots) returns (n: nat)
    requires p <= hi <= |mem| && ScanDict(mem, p, hi, s).None?
    ensures DictAfter(mem, p, hi, n).Some? && StuckAt(mem, DictAfter(mem, p, hi, n).value, hi)
    decreases hi - p
  {
    hide Next, DictNext;
    PairOrStop(mem, p, hi);
    match DictNext(mem, p, hi)
    case DictStop(_, _) =>
    case Pair(k, v, q) =>
      if !Advances(k) {
        n := 0;
      } else {
        var m := ScanGetsStuck(mem, q, hi, Store(mem, s, k, v));
        n := m + 1;
      }
  }

  lemma {:induction false} DictAfterComposes(mem: Bytes, p: nat, hi: nat, n: nat, m: nat)
    requires p <= hi <= |mem| && DictAfter(mem, p, hi, n).Some?
    ensures DictAfter(mem, p, hi, n + m) == DictAfter(mem, DictAfter(mem, p, hi, n).value, hi, m)
    decreases n
  {
    hide DictNext;
    if n > 0 {
      match DictNext(mem, p, hi)
      case Pair(_, _, q) => DictAfterComposes(mem, q, hi, n - 1, m);
    }
  }

  lemma {:induction false} DictAfterEarlier(mem: Bytes, p: nat, hi: nat, n: nat, m: nat)
    requires p <= hi <= |mem| && n <= m && DictAfter(mem, p, hi, n).None?
    ensures DictAfter(mem, p, hi, m).None?
    decreases n
  {
    hide DictNext;
    if n > 0 {
      match DictNext(mem, p, hi)
      case DictStop(_, _) =>
      case Pair(_, _, q) => DictAfterEarlier(mem, q, hi, n - 1, m - 1);
    }
  }

  /**
   * The loop of krpc_msg_parse never ends, every call on the iterator returning 0, if and only if
   * some call finds an error or the end of the input where a key should start.
   */
  lemma ScanHangsIff(mem: Bytes, p: nat, hi: nat, s: Slots)
    requires p <= hi <= |mem|
    ensures ScanDict(mem, p, hi, s).None? <==> forall n: nat :: DictAfter(mem, p, hi, n).Some?
    ensures ScanDict(mem, p, hi, s).None? <==>
            exists n: nat :: DictAfter(mem, p, hi, n).Some? && StuckAt(mem, DictAfter(mem, p, hi, n).value, hi)
  {
    hide ScanDict, DictAfter, StuckAt;
    if ScanDict(mem, p, hi, s).None? {
      var n := ScanGetsStuck(mem, p, hi, s);
      var q := DictAfter(mem, p, hi, n).value;
      forall m: nat
        ensures DictAfter(mem, p, hi, m).Some?
      {
        if m < n {
          if DictAfter(mem, p, hi, m).None? { DictAfterEarlier(mem, p, hi, m, n); }
        } else {
          DictAfterComposes(mem, p, hi, n, m - n);
          StuckForever(mem, q, hi, m - n);
        }
      }
    } else {
      var end := ScanEnds(mem, p, hi, s);
      forall n: nat | DictAfter(mem, p, hi, n).Some?
        ensures !StuckAt(mem, DictAfter(mem, p, hi, n).value, hi)
      {
        var q := DictAfter(mem, p, hi, n).value;
        if StuckAt(mem, q, hi) {
          if end <= n {
            DictAfterEarlier(mem, p, hi, end, n);
          } else {
            DictAfterComposes(mem, p, hi, n, end - n);
            StuckForever(mem, q, hi, end - n);
          }
        }
      }
    }
  }

  // When the scan ends, told from the tokens in one pass.

  /** What a single pass over the tokens has to remember. */
  datatype Place = AtKey | AtValue | Inside(depth: nat)

  predicate Legal(at: Place) { at.Inside? ==> at.depth > 0 }

  /** The place behind a token that moved the cursor; None behind the end of the dictionary. */
  function PlaceAfter(b: Benr, at: Place): (r: Option<Place>)
    requires Legal(at)
    ensures r.Some? ==> Legal(r.value)
  {
    match at
    case AtKey => if b.BEnd? then None else Some(AtValue)
    case AtValue => if b.BEnd? then None else Some(if IsContainer(b) then Inside(1) else AtKey)
    case Inside(d) =>
      var left := DepthAfter(b, d);
      Some(if left == 0 then AtKey else Inside(left))
  }

  /** The tokens get stuck where a key or a value should start; inside a value does not count. */
  predicate Spins(mem: Bytes, p: nat, hi: nat, at: Place)
    requires p <= hi <= |mem| && Legal(at)
    decreases hi - p
  {
    var s := Next(mem, p, hi);
    if !Advances(s.b) then !at.Inside?
    else
      var after := PlaceAfter(s.b, at);
      after.Some? && Spins(mem, s.next, hi, after.value)
  }

  /** Keys that are containers, as the pass meets them. */
  function OpenKeys(mem: Bytes, p: nat, hi: nat, at: Place): nat
    requires p <= hi <= |mem| && Legal(at)
    decreases hi - p
  {
    var s := Next(mem, p, hi);
    if !Advances(s.b) then 0
    else
      var after := PlaceAfter(s.b, at);
      (if at.AtKey? && IsContainer(s.b) then 1 else 0)
      + if after.None? then 0 else OpenKeys(mem, s.next, hi, after.value)
  }

  lemma {:induction false} InsideIsSkipped(mem: Bytes, p: nat, hi: nat, depth: nat)
    requires p <= hi <= |mem| && depth > 0
    ensures Spins(mem, p, hi, Inside(depth)) <==>
            match SkipFrom(mem, p, hi, depth)
            case Landed(q) => Spins(mem, q, hi, AtKey)
            case Failed(_) => false
    decreases hi - p
  {
    hide Next, SkipFrom, KindCode;
    SkipStep(mem, p, hi, depth);
    var s := Next(mem, p, hi);
    if Advances(s.b) {
      var d := DepthAfter(s.b, depth);
      if d == 0 { SkipDone(mem, s.next, hi); } else { InsideIsSkipped(mem, s.next, hi, d); }
    }
  }

  /** The scan of krpc_msg_parse hangs if and only if a single pass over the tokens says so. */
  lemma {:induction false} HangsIffTokensSpin(mem: Bytes, p: nat, hi: nat, s: Slots)
    requires p <= hi <= |mem|
    ensures ScanDict(mem, p, hi, s).None? <==> Spins(mem, p, hi, AtKey)
    decreases hi - p
  {
    hide Next, DictNext, Store, SkipFrom, KindCode;
    PairOrStop(mem, p, hi);
    var k := Next(mem, p, hi);
    if Advances(k.b) && !k.b.BEnd? {
      var v := Next(mem, k.next, hi);
      if IsContainer(v.b) { InsideIsSkipped(mem, v.next, hi, 1); }
      match DictNext(mem, p, hi) {
        case DictStop(_, _) =>
        case Pair(_, _, q) => HangsIffTokensSpin(mem, q, hi, Store(mem, s, k.b, v.b));
      }
    }
  }

  /** A dictionary that is closed somewhere never hangs the scan, whatever its keys and values are. */
  lemma {:induction false} ClosedDictNeverHangs(mem: Bytes, p: nat, hi: nat, depth: nat, q: nat, s: Slots)
    requires ClosesAt(mem, p, hi, depth, q)
    ensures ScanDict(mem, p, hi, s).Some?
    decreases hi - p
  {
    hide DictNext, SkipFrom, Store;
    DictNextInside(mem, p, hi, mem, hi, depth, q);
    match DictNext(mem, p, hi)
    case DictStop(_, _) =>
    case Pair(k, v, n) =>
      ClosedDictNeverHangs(mem, n, hi, if IsContainer(k) then depth + 1 else depth, q, Store(mem, s, k, v));
  }

  /** Levels open at a place, the dictionary's own included. */
  function Levels(at: Place): nat { if at.Inside? then 1 + at.depth else 1 }

  lemma {:induction false} SpinningDepth(mem: Bytes, p: nat, hi: nat, at: Place, base: nat)
    requires p <= hi <= |mem| && Legal(at)
    ensures Spins(mem, p, hi, at) ==>
              StuckDepth(mem, p, hi, base + Levels(at)) == Some(base + 1 + OpenKeys(mem, p, hi, at))
    decreases hi - p
  {
    hide Next;
    var s := Next(mem, p, hi);
    if Advances(s.b) {
      var after := PlaceAfter(s.b, at);
      if after.Some? {
        SpinningDepth(mem, s.next, hi, after.value, if at.AtKey? && IsContainer(s.b) then base + 1 else base);
      }
    }
  }

  lemma {:induction false} StuckOnLevelOne(mem: Bytes, p: nat, hi: nat, at: Place)
    requires p <= hi <= |mem| && Legal(at) && OpenKeys(mem, p, hi, at) == 0
    ensures StuckDepth(mem, p, hi, Levels(at)) == Some(1) ==> Spins(mem, p, hi, at)
    decreases hi - p
  {
    hide Next;
    var s := Next(mem, p, hi);
    if Advances(s.b) {
      var after := PlaceAfter(s.b, at);
      if after.Some? {
        assert DepthAfter(s.b, Levels(at)) == Levels(after.value);
        StuckOnLevelOne(mem, s.next, hi, after.value);
      } else {
        assert StuckDepth(mem, s.next, hi, 0) == None;
      }
    }
  }

  /**
   * The scan hangs only if the tokenizer gets stuck with one level open beside those opened by keys
   * that are containers; when there are no such keys, exactly then.
   */
  lemma {:induction false} HangsIffOneLevelOpen(mem: Bytes, p: nat, hi: nat, s: Slots)
    requires p <= hi <= |mem|
    ensures var open := OpenKeys(mem, p, hi, AtKey);
            && (ScanDict(mem, p, hi, s).None? ==> StuckDepth(mem, p, hi, 1) == Some(1 + open))
            && (open == 0 ==> (ScanDict(mem, p, hi, s).None? <==> StuckDepth(mem, p, hi, 1) == Some(1)))
  {
    hide ScanDict, Spins, OpenKeys, StuckDepth;
    HangsIffTokensSpin(mem, p, hi, s);
    SpinningDepth(mem, p, hi, AtKey, 0);
    if OpenKeys(mem, p, hi, AtKey) == 0 { StuckOnLevelOne(mem, p, hi, AtKey); }
  }

  /** The smallest datagram that hangs the scan: a dictionary that is never closed. */
  lemma UnclosedDictHangs(msg: Msg)
    ensures Parse([CH_D], 0, 1, msg) == Hangs
    ensures Parse([CH_D, CH_E], 0, 2, msg) == Returns(-1, Msg(KtNone, msg.query))
  {
  }

  /** On every datagram krpc_msg_parse hangs if and only if it is a dictionary whose tokens spin. */
  lemma {:induction false} ParseHangsIff(mem: Bytes, p: nat, hi: nat, msg: Msg)
    requires p <= hi <= |mem|
    ensures Parse(mem, p, hi, msg) == Hangs <==> p < hi && mem[p] == CH_D && Spins(mem, p + 1, hi, AtKey)
  {
    hide ScanDict, Spins, ScanUint, ParseY, ParseQuery;
    if p < hi && mem[p] == CH_D {
      HangsIffTokensSpin(mem, p + 1, hi, EMPTY_SLOTS);
      ScanStaysWithin(mem, p + 1, hi, EMPTY_SLOTS);
    }
  }
}

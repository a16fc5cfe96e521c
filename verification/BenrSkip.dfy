/** ctx_adv_container of benr.c: finding the end of a container only by counting markers. */
module BenrSkip {
  import opened ByteString
  import opened BencodeTree
  import opened BenrToken

  datatype SkipResult = Landed(next: nat) | Failed(code: int)

  function DepthAfter(b: Benr, depth: nat): nat
    requires b.BEnd? ==> depth > 0
  {
    if IsContainer(b) then depth + 1 else if b.BEnd? then depth - 1 else depth
  }

  /** The loop of ctx_adv_container, entered with the given depth. */
  function SkipFrom(mem: Bytes, p: nat, hi: nat, depth: nat): (r: SkipResult)
    requires p <= hi <= |mem|
    ensures r.Landed? ==> p <= r.next <= hi && (depth > 0 ==> p < r.next)
    ensures r.Failed? ==> -11 <= r.code <= -7
    decreases hi - p
  {
    if depth == 0 then Landed(p)
    else
      var s := Next(mem, p, hi);
      if IsError(s.b) then Failed(-KindCode(s.b))
      else if s.b.BNone? then Failed(-KindCode(ErrUnexpectedEof))
      else SkipFrom(mem, s.next, hi, DepthAfter(s.b, depth))
  }

  function Skip(mem: Bytes, p: nat, hi: nat): SkipResult
    requires p <= hi <= |mem|
  {
    SkipFrom(mem, p, hi, 1)
  }

  // An account of the same thing that does not mention the loop: token sequences and their balance.

  /** The bytes of [p, q) tokenize without error to ts. */
  predicate Tokenizes(mem: Bytes, p: nat, hi: nat, ts: seq<Benr>, q: nat)
    requires p <= hi <= |mem|
    decreases |ts|
  {
    if ts == [] then p == q
    else
      var s := Next(mem, p, hi);
      Advances(s.b) && ts[0] == s.b && Tokenizes(mem, s.next, hi, ts[1..], q)
  }

  /** Containers opened minus end markers. */
  function Balance(ts: seq<Benr>): int {
    if ts == [] then 0
    else (if IsContainer(ts[0]) then 1 else if ts[0].BEnd? then -1 else 0) + Balance(ts[1..])
  }

  /** Starting from the given depth, ts reaches depth 0 with its last token and not before. */
  ghost predicate FirstClosing(ts: seq<Benr>, depth: nat) {
    depth + Balance(ts) == 0 && forall k :: 0 <= k < |ts| ==> depth + Balance(ts[..k]) > 0
  }

  lemma FirstClosingStep(t: Benr, ts: seq<Benr>, depth: nat)
    requires depth > 0
    ensures FirstClosing([t] + ts, depth) <==> FirstClosing(ts, DepthAfter(t, depth))
  {
    var all := [t] + ts;
    assert all[1..] == ts;
    assert all[..0] == [];
    forall k | 0 <= k < |ts|
      ensures depth + Balance(all[..k + 1]) == DepthAfter(t, depth) + Balance(ts[..k])
    {
      assert all[..k + 1] == [t] + ts[..k];
      assert ([t] + ts[..k])[1..] == ts[..k];
    }
    if FirstClosing(all, depth) {
      assert forall k :: 0 <= k < |ts| ==> all[..k + 1] == [t] + ts[..k];
    }
    if FirstClosing(ts, DepthAfter(t, depth)) {
      forall k | 0 <= k < |all|
        ensures depth + Balance(all[..k]) > 0
      {
        if k > 0 { assert depth + Balance(all[..(k - 1) + 1]) == DepthAfter(t, depth) + Balance(ts[..k - 1]); }
      }
    }
  }

  lemma {:induction false} SkipFindsTokens(mem: Bytes, p: nat, hi: nat, depth: nat) returns (ts: seq<Benr>)
    requires p <= hi <= |mem| && SkipFrom(mem, p, hi, depth).Landed?
    ensures Tokenizes(mem, p, hi, ts, SkipFrom(mem, p, hi, depth).next) && FirstClosing(ts, depth)
    decreases hi - p
  {
    if depth == 0 {
      ts := [];
    } else {
      var s := Next(mem, p, hi);
      var rest := SkipFindsTokens(mem, s.next, hi, DepthAfter(s.b, depth));
      ts := [s.b] + rest;
      assert ts[1..] == rest;
      FirstClosingStep(s.b, rest, depth);
    }
  }

  lemma {:induction false} TokensDriveSkip(mem: Bytes, p: nat, hi: nat, depth: nat, ts: seq<Benr>, q: nat)
    requires p <= hi <= |mem| && Tokenizes(mem, p, hi, ts, q) && FirstClosing(ts, depth)
    ensures SkipFrom(mem, p, hi, depth) == Landed(q)
    decreases |ts|
  {
    if ts != [] {
      assert ts[..0] == [];
      assert depth > 0;
      var s := Next(mem, p, hi);
      assert ts == [ts[0]] + ts[1..];
      FirstClosingStep(ts[0], ts[1..], depth);
      TokensDriveSkip(mem, s.next, hi, DepthAfter(s.b, depth), ts[1..], q);
    }
  }

  /**
   * The skipper succeeds and stops at q if and only if the bytes up to q tokenize
   * to a sequence that brings the depth from 1 to 0 for the first time at its end.
   */
  lemma SkipIffFirstClosing(mem: Bytes, p: nat, hi: nat, q: nat)
    requires p <= hi <= |mem|
    ensures Skip(mem, p, hi) == Landed(q) <==>
            exists ts :: Tokenizes(mem, p, hi, ts, q) && FirstClosing(ts, 1)
  {
    if Skip(mem, p, hi) == Landed(q) {
      var ts := SkipFindsTokens(mem, p, hi, 1);
      assert Tokenizes(mem, p, hi, ts, q) && FirstClosing(ts, 1);
    }
    if exists ts :: Tokenizes(mem, p, hi, ts, q) && FirstClosing(ts, 1) {
      var ts :| Tokenizes(mem, p, hi, ts, q) && FirstClosing(ts, 1);
      TokensDriveSkip(mem, p, hi, 1, ts, q);
    }
  }

  /** After ts, and at every point before, the container is still open. */
  ghost predicate StaysOpen(ts: seq<Benr>, depth: nat) {
    forall k :: 0 <= k <= |ts| ==> depth + Balance(ts[..k]) > 0
  }

  lemma StaysOpenStep(t: Benr, ts: seq<Benr>, depth: nat)
    requires depth > 0
    ensures StaysOpen([t] + ts, depth) <==> StaysOpen(ts, DepthAfter(t, depth))
  {
    var all := [t] + ts;
    assert all[..0] == [];
    forall k | 0 <= k <= |ts|
      ensures depth + Balance(all[..k + 1]) == DepthAfter(t, depth) + Balance(ts[..k])
    {
      assert all[..k + 1] == [t] + ts[..k];
      assert ([t] + ts[..k])[1..] == ts[..k];
    }
    if StaysOpen(ts, DepthAfter(t, depth)) {
      forall k | 0 <= k <= |all|
        ensures depth + Balance(all[..k]) > 0
      {
        if k > 0 { assert depth + Balance(all[..(k - 1) + 1]) == DepthAfter(t, depth) + Balance(ts[..k - 1]); }
      }
    }
  }

  /** The code reported for a token the loop cannot go on with. */
  function FailureCode(b: Benr): int {
    -KindCode(if IsError(b) then b else ErrUnexpectedEof)
  }

  /** The bytes up to q tokenize with the container still open, and at q there is no further token. */
  ghost predicate GetsStuck(mem: Bytes, p: nat, hi: nat, depth: nat, ts: seq<Benr>, q: nat, code: int)
    requires p <= hi <= |mem|
  {
    && Tokenizes(mem, p, hi, ts, q) && StaysOpen(ts, depth)
    && q <= hi && !Advances(Next(mem, q, hi).b) && code == FailureCode(Next(mem, q, hi).b)
  }

  lemma {:induction false} FailureFindsTokens(mem: Bytes, p: nat, hi: nat, depth: nat)
    returns (ts: seq<Benr>, q: nat)
    requires p <= hi <= |mem| && SkipFrom(mem, p, hi, depth).Failed?
    ensures GetsStuck(mem, p, hi, depth, ts, q, SkipFrom(mem, p, hi, depth).code)
    decreases hi - p
  {
    hide Next;
    var s := Next(mem, p, hi);
    if Advances(s.b) {
      var rest;
      rest, q := FailureFindsTokens(mem, s.next, hi, DepthAfter(s.b, depth));
      ts := [s.b] + rest;
      assert ts[1..] == rest;
      StaysOpenStep(s.b, rest, depth);
    } else {
      ts, q := [], p;
    }
  }

  lemma {:induction false} TokensDriveFailure(
    mem: Bytes, p: nat, hi: nat, depth: nat, ts: seq<Benr>, q: nat, code: int)
    requires p <= hi <= |mem| && GetsStuck(mem, p, hi, depth, ts, q, code)
    ensures SkipFrom(mem, p, hi, depth) == Failed(code)
    decreases |ts|
  {
    hide Next, KindCode;
    assert ts[..0] == [];
    assert depth > 0;
    if ts != [] {
      var s := Next(mem, p, hi);
      assert ts == [ts[0]] + ts[1..];
      StaysOpenStep(ts[0], ts[1..], depth);
      TokensDriveFailure(mem, s.next, hi, DepthAfter(s.b, depth), ts[1..], q, code);
    }
  }

  /**
   * The skipper fails with a code if and only if the tokenizer comes to a stop while the container
   * is still open; the code is that of the error found, or that of an unexpected end of input.
   */
  lemma SkipFailsIffStuck(mem: Bytes, p: nat, hi: nat, code: int)
    requires p <= hi <= |mem|
    ensures Skip(mem, p, hi) == Failed(code) <==> exists ts, q :: GetsStuck(mem, p, hi, 1, ts, q, code)
  {
    hide SkipFrom, GetsStuck;
    if Skip(mem, p, hi) == Failed(code) {
      var ts, q := FailureFindsTokens(mem, p, hi, 1);
      assert GetsStuck(mem, p, hi, 1, ts, q, code);
    }
    if exists ts, q :: GetsStuck(mem, p, hi, 1, ts, q, code) {
      var ts, q :| GetsStuck(mem, p, hi, 1, ts, q, code);
      TokensDriveFailure(mem, p, hi, 1, ts, q, code);
    }
  }

  // The skipper looks at nothing beyond where it lands.

  lemma {:induction false} SkipLocal(mem: Bytes, p: nat, hi: nat, mem': Bytes, hi': nat, depth: nat)
    requires p <= hi <= |mem| && SkipFrom(mem, p, hi, depth).Landed?
    requires Agree(mem, mem', p, SkipFrom(mem, p, hi, depth).next)
    requires SkipFrom(mem, p, hi, depth).next <= hi' <= |mem'|
    ensures SkipFrom(mem', p, hi', depth) == SkipFrom(mem, p, hi, depth)
    decreases hi - p
  {
    if depth > 0 {
      NextLocal(mem, p, hi, mem', hi');
      var s := Next(mem, p, hi);
      SkipLocal(mem, s.next, hi, mem', hi', DepthAfter(s.b, depth));
    }
  }

  /** Closing several levels is closing the inner ones and going on from there, failures included. */
  lemma {:induction false} SkipSplit(mem: Bytes, p: nat, hi: nat, inner: nat, outer: nat)
    requires p <= hi <= |mem|
    ensures SkipFrom(mem, p, hi, inner + outer) ==
            match SkipFrom(mem, p, hi, inner)
            case Landed(m) => SkipFrom(mem, m, hi, outer)
            case Failed(code) => Failed(code)
    decreases hi - p
  {
    hide Next, SkipFrom, KindCode;
    if inner == 0 {
      SkipDone(mem, p, hi);
    } else {
      var s := Next(mem, p, hi);
      SkipStep(mem, p, hi, inner);
      SkipStep(mem, p, hi, inner + outer);
      if Advances(s.b) {
        assert DepthAfter(s.b, inner + outer) == DepthAfter(s.b, inner) + outer;
        SkipSplit(mem, s.next, hi, DepthAfter(s.b, inner), outer);
      }
    }
  }

  /** The byte before the landing place is the end marker that closes the level. */
  lemma {:induction false} LandsBehindEndMarker(mem: Bytes, p: nat, hi: nat, depth: nat)
    requires p <= hi <= |mem| && depth > 0 && SkipFrom(mem, p, hi, depth).Landed?
    ensures mem[SkipFrom(mem, p, hi, depth).next - 1] == CH_E
    decreases hi - p
  {
    hide Next;
    var s := Next(mem, p, hi);
    var d := DepthAfter(s.b, depth);
    if d > 0 { LandsBehindEndMarker(mem, s.next, hi, d); }
  }

  // Termination and the width of the depth counter, on every input.

  /** Tokens the loop asks for before it returns, the failing one included. */
  function TokensTaken(mem: Bytes, p: nat, hi: nat, depth: nat): nat
    requires p <= hi <= |mem|
    decreases hi - p
  {
    if depth == 0 then 0
    else
      var s := Next(mem, p, hi);
      if Advances(s.b) then 1 + TokensTaken(mem, s.next, hi, DepthAfter(s.b, depth)) else 1
  }

  /** One turn of the loop. */
  lemma SkipStep(mem: Bytes, p: nat, hi: nat, depth: nat)
    requires p <= hi <= |mem| && depth > 0
    ensures var s := Next(mem, p, hi);
            if Advances(s.b) then
              && SkipFrom(mem, p, hi, depth) == SkipFrom(mem, s.next, hi, DepthAfter(s.b, depth))
              && TokensTaken(mem, p, hi, depth) == 1 + TokensTaken(mem, s.next, hi, DepthAfter(s.b, depth))
            else
              && SkipFrom(mem, p, hi, depth) ==
                 Failed(FailureCode(s.b))
              && TokensTaken(mem, p, hi, depth) == 1
  {
    hide Next;
  }

  lemma SkipDone(mem: Bytes, p: nat, hi: nat)
    requires p <= hi <= |mem|
    ensures SkipFrom(mem, p, hi, 0) == Landed(p) && TokensTaken(mem, p, hi, 0) == 0
  {
    hide Next;
  }

  /** The highest value the depth counter takes. */
  function PeakDepth(mem: Bytes, p: nat, hi: nat, depth: nat): nat
    requires p <= hi <= |mem|
    decreases hi - p
  {
    var s := Next(mem, p, hi);
    if depth == 0 || !Advances(s.b) then depth
    else
      var rest := PeakDepth(mem, s.next, hi, DepthAfter(s.b, depth));
      if rest > depth then rest else depth
  }

  lemma {:induction false} SkipBounds(mem: Bytes, p: nat, hi: nat, depth: nat)
    requires p <= hi <= |mem|
    ensures TokensTaken(mem, p, hi, depth) <= hi - p + 1
    ensures PeakDepth(mem, p, hi, depth) <= depth + (hi - p)
    decreases hi - p
  {
    var s := Next(mem, p, hi);
    if depth > 0 && Advances(s.b) { SkipBounds(mem, s.next, hi, DepthAfter(s.b, depth)); }
  }

  /** Every token takes a byte, so between any two positions the depth moves by no more than their distance. */
  lemma {:induction false} DepthBound(mem: Bytes, p: nat, hi: nat, ts: seq<Benr>, q: nat)
    requires p <= hi <= |mem| && Tokenizes(mem, p, hi, ts, q)
    ensures p <= q <= hi && |ts| <= q - p && p - q <= Balance(ts) <= q - p
    decreases |ts|
  {
    hide Next;
    if ts != [] { DepthBound(mem, Next(mem, p, hi).next, hi, ts[1..], q); }
  }

  /** How many levels are open where the tokenizer gets stuck; None if it closes them all before. */
  function StuckDepth(mem: Bytes, p: nat, hi: nat, depth: nat): Option<nat>
    requires p <= hi <= |mem|
    decreases hi - p
  {
    if depth == 0 then None
    else
      var s := Next(mem, p, hi);
      if Advances(s.b) then StuckDepth(mem, s.next, hi, DepthAfter(s.b, depth)) else Some(depth)
  }

  lemma {:induction false} StuckIffFailed(mem: Bytes, p: nat, hi: nat, depth: nat)
    requires p <= hi <= |mem|
    ensures StuckDepth(mem, p, hi, depth).Some? <==> SkipFrom(mem, p, hi, depth).Failed?
    decreases hi - p
  {
    hide Next, SkipFrom, KindCode;
    if depth == 0 {
      SkipDone(mem, p, hi);
    } else {
      SkipStep(mem, p, hi, depth);
      var s := Next(mem, p, hi);
      if Advances(s.b) { StuckIffFailed(mem, s.next, hi, DepthAfter(s.b, depth)); }
    }
  }

  // Encoded values are passed over at constant depth.

  lemma SkipEndMarker(mem: Bytes, p: nat, hi: nat, depth: nat)
    requires depth > 0 && p < hi <= |mem| && Next(mem, p, hi) == Step(BEnd, p + 1)
    ensures SkipFrom(mem, p, hi, depth) == SkipFrom(mem, p + 1, hi, depth - 1)
  {
    hide Next;
  }

  lemma SkipText(mem: Bytes, p: nat, hi: nat, s: Bytes, depth: nat)
    requires depth > 0 && SizedText(s) && HoldsText(mem, p, hi, s)
    ensures p + |EncodeText(s)| <= hi <= |mem|
    ensures SkipFrom(mem, p, hi, depth) == SkipFrom(mem, p + |EncodeText(s)|, hi, depth)
  {
    hide Next, EncodeText;
    TextRoundTrip(mem, p, hi, s);
  }

  lemma {:induction false} SkipTree(mem: Bytes, p: nat, hi: nat, t: Tree, depth: nat)
    requires depth > 0 && Sized(t) && Holds(mem, p, hi, t)
    ensures SkipFrom(mem, p, hi, depth) == SkipFrom(mem, p + |Encode(t)|, hi, depth)
    decreases t
  {
    hide Next, HoldsItems, HoldsEntries, EncodeText, EncodeItems, EncodeEntries, At;
    match t
    case Integer(i) => IntegerAt(mem, p, hi, t);
    case Text(s) => SkipText(mem, p, hi, s, depth);
    case List(ts) =>
      ListAt(mem, p, hi, t);
      SkipItems(mem, p + 1, hi, ts, depth + 1);
    case Dict(es) =>
      DictAt(mem, p, hi, t);
      SkipEntries(mem, p + 1, hi, es, depth + 1);
  }

  lemma {:induction false} SkipItems(mem: Bytes, p: nat, hi: nat, ts: seq<Tree>, depth: nat)
    requires depth > 0 && SizedItems(ts) && HoldsItems(mem, p, hi, ts)
    ensures SkipFrom(mem, p, hi, depth) == SkipFrom(mem, p + |EncodeItems(ts)| + 1, hi, depth - 1)
    decreases ts
  {
    hide Next, SkipFrom, Holds, HoldsItems, Encode, EncodeItems;
    if ts == [] {
      NoItemsAt(mem, p, hi);
      SkipEndMarker(mem, p, hi, depth);
    } else {
      ItemsAt(mem, p, hi, ts);
      SkipTree(mem, p, hi, ts[0], depth);
      SkipItems(mem, p + |Encode(ts[0])|, hi, ts[1..], depth);
    }
  }

  lemma {:induction false} SkipEntries(mem: Bytes, p: nat, hi: nat, es: seq<Entry>, depth: nat)
    requires depth > 0 && SizedEntries(es) && HoldsEntries(mem, p, hi, es)
    ensures SkipFrom(mem, p, hi, depth) == SkipFrom(mem, p + |EncodeEntries(es)| + 1, hi, depth - 1)
    decreases es
  {
    hide Next, SkipFrom, Holds, HoldsEntries, HoldsText, Encode, EncodeText, EncodeEntries;
    if es == [] {
      NoEntriesAt(mem, p, hi);
      SkipEndMarker(mem, p, hi, depth);
    } else {
      EntriesAt(mem, p, hi, es);
      var q := p + |EncodeText(es[0].key)|;
      SkipText(mem, p, hi, es[0].key, depth);
      SkipTree(mem, q, hi, es[0].val, depth);
      SkipEntries(mem, q + |Encode(es[0].val)|, hi, es[1..], depth);
    }
  }

  /** On any encoded container the skipper lands just past the matching end marker. */
  lemma SkipLandsPastMatchingEnd(mem: Bytes, p: nat, hi: nat, t: Tree)
    requires Sized(t) && (t.List? || t.Dict?) && Holds(mem, p, hi, t)
    ensures IsContainer(Next(mem, p, hi).b)
    ensures Skip(mem, Next(mem, p, hi).next, hi) == Landed(p + |Encode(t)|)
  {
    hide Next, Holds, HoldsItems, HoldsEntries, Encode;
    match t
    case List(ts) =>
      ListAt(mem, p, hi, t);
      SkipItems(mem, p + 1, hi, ts, 1);
    case Dict(es) =>
      DictAt(mem, p, hi, t);
      SkipEntries(mem, p + 1, hi, es, 1);
  }
}

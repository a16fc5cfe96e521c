/**
 * benp.c: a second tokenizer for the same grammar. Its specification is written from its own
 * code and then related to benr_next.
 */
module Benp {
  import opened ByteString
  import opened Numerals
  import opened BencodeTree
  import opened BenrToken

  /** struct benp_ev. */
  datatype Event =
    | EvDone
    | EvInteger(i: int)
    | EvString(start: nat, len: nat)
    | EvListStart
    | EvDictStart
    | EvXEnd
    | EvErrorUnexpectedEof
    | EvErrorUnexpectedByte(loc: nat)
    | EvErrorStringTooLong(error_len: nat)
    | EvErrorUnexpectedByteInInt(loc: nat)
    | EvUint(u: nat)

  predicate IsErrorEvent(e: Event) {
    || e.EvErrorUnexpectedEof? || e.EvErrorUnexpectedByte?
    || e.EvErrorStringTooLong? || e.EvErrorUnexpectedByteInInt?
  }

  datatype EvStep = EvStep(e: Event, next: nat)

  /** _benp_next_uint: an error leaves the cursor where it was. */
  function NextUint(mem: Bytes, p: nat, q: nat, hi: nat, end: Byte, v: nat): (r: EvStep)
    requires p <= q <= hi <= |mem| && v < U64
    ensures r.e.EvUint? ==> q < r.next <= hi && r.e.u < U64
    ensures !r.e.EvUint? ==> r.next == p && IsErrorEvent(r.e)
    decreases hi - q
  {
    if q == hi then EvStep(EvErrorUnexpectedEof, p)
    else if mem[q] == end then EvStep(EvUint(v), q + 1)
    else if !IsDigit(mem[q]) then EvStep(EvErrorUnexpectedByteInInt(q), p)
    else NextUint(mem, p, q + 1, hi, end, (v * 10 % U64 + (mem[q] - ZERO)) % U64)
  }

  /** benp_next. */
  function NextEvent(mem: Bytes, p: nat, hi: nat): (r: EvStep)
    requires p <= hi <= |mem|
    ensures p <= r.next <= hi && !r.e.EvUint?
    ensures r.next == p <==> r.e.EvDone? || IsErrorEvent(r.e)
    ensures r.e.EvDone? <==> p == hi
    ensures r.e.EvString? ==> p < r.e.start && r.e.start + r.e.len == r.next
  {
    if p == hi then EvStep(EvDone, p)
    else if mem[p] == CH_I then
      if p + 1 == hi then EvStep(EvErrorUnexpectedEof, p)
      else
        var q := if mem[p + 1] == MINUS then p + 2 else p + 1;
        var r := NextUint(mem, q, q, hi, CH_E, 0);
        if !r.e.EvUint? then EvStep(r.e, p)
        else EvStep(EvInteger(ToSigned64(r.e.u * (if q == p + 2 then U64 - 1 else 1) % U64)), r.next)
    else if mem[p] == CH_L then EvStep(EvListStart, p + 1)
    else if mem[p] == CH_D then EvStep(EvDictStart, p + 1)
    else if mem[p] == CH_E then EvStep(EvXEnd, p + 1)
    else if IsDigit(mem[p]) then
      var r := NextUint(mem, p, p, hi, CH_COLON, 0);
      if !r.e.EvUint? then EvStep(r.e, p)
      else if r.e.u > hi - r.next then EvStep(EvErrorStringTooLong(r.e.u), p)
      else EvStep(EvString(r.next, r.e.u), r.next + r.e.u)
    else EvStep(EvErrorUnexpectedByte(p), p)
  }

  // Lockstep with benr.c.

  /** The event benp_next reports where benr_next reports b. */
  function EventOf(b: Benr): Event {
    match b
    case BNone => EvDone
    case BInt(i) => EvInteger(i)
    case BString(s, n) => EvString(s, n)
    case BList(_) => EvListStart
    case BDict(_) => EvDictStart
    case BEnd => EvXEnd
    case BUint(u) => EvUint(u)
    case ErrUnexpectedByte(loc) => EvErrorUnexpectedByte(loc)
    case ErrUnexpectedEof => EvErrorUnexpectedEof
    case ErrUnexpectedEofInInt => EvErrorUnexpectedEof
    case ErrUnexpectedByteInInt(loc) => EvErrorUnexpectedByteInInt(loc)
    case ErrStringTooLong(n) => EvErrorStringTooLong(n)
    case ErrKeyIsNotString => EvErrorUnexpectedByte(0)
  }

  lemma {:induction false} UintsAgree(mem: Bytes, p: nat, q: nat, hi: nat, end: Byte, v: nat)
    requires p <= q <= hi <= |mem| && v < U64
    ensures NextUint(mem, p, q, hi, end, v) ==
            match ScanUint(mem, q, hi, end, v)
            case Found(u, n) => EvStep(EvUint(u), n)
            case BadByte(loc) => EvStep(EvErrorUnexpectedByteInInt(loc), p)
            case RanOut => EvStep(EvErrorUnexpectedEof, p)
    decreases hi - q
  {
    if q < hi && mem[q] != end && IsDigit(mem[q]) {
      UintsAgree(mem, p, q + 1, hi, end, (v * 10 % U64 + (mem[q] - ZERO)) % U64);
    }
  }

  /** On every byte string the two tokenizers agree: kind, value, payload slice and cursor. */
  lemma SameToken(mem: Bytes, p: nat, hi: nat)
    requires p <= hi <= |mem|
    ensures NextEvent(mem, p, hi) == EvStep(EventOf(Next(mem, p, hi).b), Next(mem, p, hi).next)
  {
    hide ScanUint, NextUint;
    if p < hi {
      if mem[p] == CH_I && p + 1 < hi {
        var q := if mem[p + 1] == MINUS then p + 2 else p + 1;
        UintsAgree(mem, q, q, hi, CH_E, 0);
      }
      UintsAgree(mem, p, p, hi, CH_COLON, 0);
    }
  }

  /** Where n calls leave each cursor. */
  function BenrAfter(mem: Bytes, p: nat, hi: nat, n: nat): (r: nat)
    requires p <= hi <= |mem|
    ensures p <= r <= hi
    decreases n
  {
    if n == 0 then p else BenrAfter(mem, Next(mem, p, hi).next, hi, n - 1)
  }

  function BenpAfter(mem: Bytes, p: nat, hi: nat, n: nat): (r: nat)
    requires p <= hi <= |mem|
    ensures p <= r <= hi
    decreases n
  {
    if n == 0 then p else BenpAfter(mem, NextEvent(mem, p, hi).next, hi, n - 1)
  }

  /** They stay in step for any number of calls. */
  lemma {:induction false} Lockstep(mem: Bytes, p: nat, hi: nat, n: nat)
    requires p <= hi <= |mem|
    ensures BenpAfter(mem, p, hi, n) == BenrAfter(mem, p, hi, n)
    ensures var q := BenrAfter(mem, p, hi, n);
            NextEvent(mem, q, hi) == EvStep(EventOf(Next(mem, q, hi).b), Next(mem, q, hi).next)
    decreases n
  {
    hide Next, NextEvent, EventOf;
    SameToken(mem, p, hi);
    if n > 0 { Lockstep(mem, Next(mem, p, hi).next, hi, n - 1); }
  }

  // Tiling.

  /** An event and the bytes it was read from. */
  datatype Tile = Tile(e: Event, from: nat, to: nat)

  /** Calls until DONE or an error, that one included. */
  function Tiles(mem: Bytes, p: nat, hi: nat): seq<Tile>
    requires p <= hi <= |mem|
    decreases hi - p
  {
    var r := NextEvent(mem, p, hi);
    if r.next == p then [Tile(r.e, p, p)] else [Tile(r.e, p, r.next)] + Tiles(mem, r.next, hi)
  }

  /** Non-empty adjacent spans from p on, payloads inside, closed by one call that takes nothing. */
  ghost predicate IsTiling(ts: seq<Tile>, p: nat, hi: nat) {
    && 0 < |ts| <= hi - p + 1
    && ts[0].from == p
    && (forall k :: 0 <= k < |ts| ==> p <= ts[k].from <= ts[k].to <= hi)
    && (forall k :: 0 <= k < |ts| - 1 ==> ts[k].from < ts[k].to == ts[k + 1].from)
    && (forall k :: 0 <= k < |ts| && ts[k].e.EvString? ==>
         ts[k].from < ts[k].e.start && ts[k].e.start + ts[k].e.len == ts[k].to)
    && var last := ts[|ts| - 1];
      && last.from == last.to && (last.e.EvDone? || IsErrorEvent(last.e))
      && (last.e.EvDone? <==> last.to == hi)
  }

  lemma ConsTiling(t: Tile, rest: seq<Tile>, p: nat, hi: nat)
    requires t.from == p < t.to <= hi && IsTiling(rest, t.to, hi)
    requires t.e.EvString? ==> p < t.e.start && t.e.start + t.e.len == t.to
    ensures IsTiling([t] + rest, p, hi)
  {
    var ts := [t] + rest;
    forall k | 0 <= k < |ts| - 1
      ensures ts[k].from < ts[k].to == ts[k + 1].from
    {
      if k > 0 { assert ts[k] == rest[k - 1] && ts[k + 1] == rest[k - 1 + 1]; }
    }
  }

  lemma {:induction false} TilesTile(mem: Bytes, p: nat, hi: nat)
    requires p <= hi <= |mem|
    ensures IsTiling(Tiles(mem, p, hi), p, hi)
    decreases hi - p
  {
    hide NextEvent, IsTiling;
    var r := NextEvent(mem, p, hi);
    if r.next == p {
      LastTile(r.e, p, hi);
    } else {
      TilesTile(mem, r.next, hi);
      ConsTiling(Tile(r.e, p, r.next), Tiles(mem, r.next, hi), p, hi);
    }
  }

  lemma LastTile(e: Event, p: nat, hi: nat)
    requires p <= hi && (e.EvDone? || IsErrorEvent(e)) && (e.EvDone? <==> p == hi)
    ensures IsTiling([Tile(e, p, p)], p, hi)
  {
  }

  /** The bytes of all tiles, in order. */
  function Covered(mem: Bytes, ts: seq<Tile>): Bytes
    requires forall k :: 0 <= k < |ts| ==> ts[k].from <= ts[k].to <= |mem|
  {
    if ts == [] then [] else mem[ts[0].from..ts[0].to] + Covered(mem, ts[1..])
  }

  lemma {:induction false} TilesCover(mem: Bytes, p: nat, hi: nat)
    requires p <= hi <= |mem|
    ensures IsTiling(Tiles(mem, p, hi), p, hi)
    ensures var ts := Tiles(mem, p, hi); Covered(mem, ts) == mem[p..ts[|ts| - 1].to]
    decreases hi - p
  {
    hide NextEvent;
    TilesTile(mem, p, hi);
    var r := NextEvent(mem, p, hi);
    if r.next == p {
      assert [Tile(r.e, p, p)][1..] == [];
    } else {
      TilesCover(mem, r.next, hi);
      var rest := Tiles(mem, r.next, hi);
      var ts := [Tile(r.e, p, r.next)] + rest;
      assert ts[1..] == rest;
      assert mem[p..r.next] + mem[r.next..rest[|rest| - 1].to] == mem[p..rest[|rest| - 1].to];
    }
  }

  /**
   * On any input, calling benp_next until it stops cuts a prefix of the input into non-empty,
   * adjacent spans; string payloads lie inside theirs; the last call takes nothing, and
   * the whole input has been covered exactly when it reported DONE.
   */
  lemma Tiling(mem: Bytes)
    ensures var ts := Tiles(mem, 0, |mem|);
            && IsTiling(ts, 0, |mem|)
            && Covered(mem, ts) <= mem
            && (Covered(mem, ts) == mem <==> ts[|ts| - 1].e.EvDone?)
  {
    hide Tiles, Covered;
    TilesCover(mem, 0, |mem|);
    var ts := Tiles(mem, 0, |mem|);
    assert |Covered(mem, ts)| == ts[|ts| - 1].to;
  }
}

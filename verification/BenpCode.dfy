/** benp.c in its own form. */
module BenpCode {
  import opened ByteString
  import opened Numerals
  import opened BencodeTree
  import opened Benp
  import opened TokenTable

  /** struct benp_ctx. */
  class Context {
    const mem: Bytes
    var start: nat
    var len: nat

    ghost predicate Valid()
      reads this
    {
      start + len <= |mem| < SIZE_MAX
    }

    /** benp_init. */
    constructor (mem: Bytes, data: nat, data_len: nat)
      ensures this.mem == mem && start == data && len == data_len
    {
      this.mem := mem;
      start := data;
      len := data_len;
    }

    method Peek() returns (b: Byte)
      requires Valid() && len > 0
      ensures b == mem[start]
    {
      b := mem[start];
    }

    method Adv()
      requires Valid() && len > 0
      modifies this
      ensures start == old(start) + 1 && len == old(len) - 1
    {
      len := len - 1;
      start := start + 1;
    }

    method AdvN(n: nat)
      requires Valid() && n <= len
      modifies this
      ensures start == old(start) + n && len == old(len) - n
    {
      len := len - n;
      start := start + n;
    }

    method NextByte() returns (b: Byte)
      requires Valid() && len > 0
      modifies this
      ensures b == mem[old(start)] && start == old(start) + 1 && len == old(len) - 1
    {
      b := Peek();
      Adv();
    }

    /** _benp_next_uint. */
    method Uint(end: Byte) returns (e: Event)
      requires Valid()
      modifies this
      ensures start + len == old(start + len)
      ensures EvStep(e, start) == NextUint(mem, old(start), old(start), old(start + len), end, 0)
    {
      hide NextUint;
      var v: nat := 0;
      var lctx := new Context(mem, start, len);
      ghost var p, hi := start, start + len;
      while lctx.len > 0
        invariant lctx.mem == mem && lctx.Valid() && lctx.start + lctx.len == hi
        invariant v < U64 && start == p <= lctx.start && start + len == hi
        invariant NextUint(mem, p, lctx.start, hi, end, v) == NextUint(mem, p, p, hi, end, 0)
        decreases lctx.len
      {
        UintStep(mem, p, lctx.start, hi, end, v);
        var it := lctx.NextByte();
        if it == end {
          start, len := lctx.start, lctx.len;
          return EvUint(v);
        }
        if !IsDigit(it) {
          return EvErrorUnexpectedByteInInt(lctx.start - 1);
        }
        v := v * 10 % U64;
        v := (v + (it - ZERO)) % U64;
      }
      UintStep(mem, p, lctx.start, hi, end, v);
      return EvErrorUnexpectedEof;
    }

    /** benp_next. */
    method NextEv() returns (e: Event)
      requires Valid()
      modifies this
      ensures start + len == old(start + len)
      ensures EvStep(e, start) == NextEvent(mem, old(start), old(start + len))
      ensures EventIs(mem, old(start), old(start + len), e, start)
    {
      hide NextUint, EventIs;
      NextEventByTable(mem, start, start + len);
      if len == 0 {
        return EvDone;
      }
      var lctx := new Context(mem, start, len);
      var fst := lctx.Peek();
      if fst == CH_I {
        lctx.Adv();
        if lctx.len == 0 {
          return EvErrorUnexpectedEof;
        }
        var d := lctx.Peek();
        var sign := 1;
        if d == MINUS {
          sign := U64 - 1; // -1 converted to uintmax_t
          lctx.Adv();
        }
        e := lctx.Uint(CH_E);
        if !e.EvUint? {
          return;
        }
        start, len := lctx.start, lctx.len;
        e := EvInteger(ToSigned64(e.u * sign % U64));
      } else if fst == CH_L {
        Adv();
        e := EvListStart;
      } else if fst == CH_D {
        Adv();
        e := EvDictStart;
      } else if fst == CH_E {
        Adv();
        e := EvXEnd;
      } else if IsDigit(fst) {
        e := lctx.Uint(CH_COLON);
        if !e.EvUint? {
          return;
        }
        if e.u > SIZE_MAX || e.u > lctx.len {
          return EvErrorStringTooLong(e.u);
        }
        var s, n := lctx.start, e.u;
        lctx.AdvN(n);
        start, len := lctx.start, lctx.len;
        e := EvString(s, n);
      } else {
        e := EvErrorUnexpectedByte(lctx.start);
      }
    }
  }

  /** One turn of the digit loop. */
  lemma UintStep(mem: Bytes, p: nat, q: nat, hi: nat, end: Byte, v: nat)
    requires p <= q <= hi <= |mem| && v < U64
    ensures NextUint(mem, p, q, hi, end, v) ==
            if q == hi then EvStep(EvErrorUnexpectedEof, p)
            else if mem[q] == end then EvStep(EvUint(v), q + 1)
            else if !IsDigit(mem[q]) then EvStep(EvErrorUnexpectedByteInInt(q), p)
            else NextUint(mem, p, q + 1, hi, end, (v * 10 % U64 + (mem[q] - ZERO)) % U64)
  {
  }

  /** A client draining the event stream, as test-benp.c does. */
  method Drain(mem: Bytes) returns (ts: seq<Tile>)
    requires |mem| < SIZE_MAX
    ensures ts == Tiles(mem, 0, |mem|)
  {
    hide NextEvent, Tiles, EventIs;
    var ctx := new Context(mem, 0, |mem|);
    ts := [];
    while true
      invariant fresh(ctx) && ctx.mem == mem && ctx.Valid() && ctx.start + ctx.len == |mem|
      invariant Tiles(mem, 0, |mem|) == ts + Tiles(mem, ctx.start, |mem|)
      decreases ctx.len
    {
      var from := ctx.start;
      TilesOnce(mem, from, |mem|, ts);
      var e := ctx.NextEv();
      ts := ts + [Tile(e, from, ctx.start)];
      if e.EvDone? || IsErrorEvent(e) {
        return;
      }
    }
  }

  /** One more tile behind those collected. */
  lemma TilesOnce(mem: Bytes, p: nat, hi: nat, ts: seq<Tile>)
    requires p <= hi <= |mem|
    ensures var r := NextEvent(mem, p, hi);
            ts + Tiles(mem, p, hi) ==
            ts + [Tile(r.e, p, r.next)] + if r.next == p then [] else Tiles(mem, r.next, hi)
  {
    hide NextEvent;
    var r := NextEvent(mem, p, hi);
    if r.next > p {
      var t, rest := Tile(r.e, p, r.next), Tiles(mem, r.next, hi);
      assert ts + ([t] + rest) == ts + [t] + rest;
    }
  }
}

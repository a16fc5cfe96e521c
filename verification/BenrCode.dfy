/**
 * benr.c in its own form: cursors that are moved in place, local copies that are committed
 * only on success, loops. Every operation is proved against the functions of
 * BenrToken, BenrSkip and BenrIter.
 */
module BenrCode {
  import opened ByteString
  import opened Numerals
  import opened BencodeTree
  import opened BenrToken
  import opened BenrSkip
  import opened BenrIter
  import opened TokenTable

  /** struct benr_ctx. mem is the memory it points into; addresses are offsets. */
  class Cursor {
    const mem: Bytes
    var start: nat
    var len: nat

    /** A buffer and the address one past its end fit the address space, and no address is 0. */
    ghost predicate Valid()
      reads this
    {
      start + len <= |mem| < SIZE_MAX
    }

    constructor (mem: Bytes, start: nat, len: nat)
      ensures this.mem == mem && this.start == start && this.len == len
    {
      this.mem := mem;
      this.start := start;
      this.len := len;
    }

    method Peek() returns (b: Byte)
      requires Valid() && len > 0
      ensures b == mem[start]
    {
      b := mem[start];
    }

    method Adv()
      requires Valid() && len > 0
      modifies this
      ensures start == old(start) + 1 && len == old(len) - 1
    {
      len := len - 1;
      start := start + 1;
    }

    method AdvN(n: nat)
      requires Valid() && n <= len
      modifies this
      ensures start == old(start) + n && len == old(len) - n
    {
      len := len - n;
      start := start + n;
    }

    method NextByte() returns (b: Byte)
      requires Valid() && len > 0
      modifies this
      ensures b == mem[old(start)] && start == old(start) + 1 && len == old(len) - 1
    {
      b := Peek();
      Adv();
    }

    /** benr_init_uint. */
    method InitUint(end: Byte) returns (b: Benr)
      requires Valid()
      modifies this
      ensures start + len == old(start + len)
      ensures match ScanUint(mem, old(start), old(start + len), end, 0)
              case Found(u, q) => b == BUint(u) && start == q
              case BadByte(loc) => b == ErrUnexpectedByteInInt(loc) && start == old(start)
              case RanOut => b == ErrUnexpectedEofInInt && start == old(start)
    {
      hide ScanUint;
      var v: nat := 0;
      var lctx := new Cursor(mem, start, len);
      while lctx.len > 0
        invariant lctx.mem == mem && lctx.Valid() && lctx.start + lctx.len == start + len
        invariant v < U64 && unchanged(this)
        invariant ScanUint(mem, lctx.start, start + len, end, v) == ScanUint(mem, start, start + len, end, 0)
        decreases lctx.len
      {
        ScanStep(mem, lctx.start, start + len, end, v);
        var it := lctx.NextByte();
        if it == end {
          start, len := lctx.start, lctx.len;
          return BUint(v);
        }
        if !IsDigit(it) {
          return ErrUnexpectedByteInInt(lctx.start - 1);
        }
        v := v * 10 % U64;
        v := (v + (it - ZERO)) % U64;
      }
      ScanStep(mem, lctx.start, start + len, end, v);
      return ErrUnexpectedEofInInt;
    }

    /** benr_next. */
    method NextToken() returns (b: Benr)
      requires Valid()
      modifies this
      ensures start + len == old(start + len)
      ensures Step(b, start) == Next(mem, old(start), old(start + len))
      ensures TokenIs(mem, old(start), old(start + len), b, start)
    {
      hide TokenIs;
      NextByTable(mem, start, start + len);
      var lctx := new Cursor(mem, start, len);
      if lctx.len == 0 {
        return BNone;
      }
      var c := lctx.Peek();
      if c == CH_I {
        b := NextTokenInt(lctx);
      } else if c == CH_D {
        lctx.Adv();
        b := BDict(Span(lctx.start, lctx.len));
        start, len := lctx.start, lctx.len;
      } else if c == CH_L {
        lctx.Adv();
        b := BList(Span(lctx.start, lctx.len));
        start, len := lctx.start, lctx.len;
      } else if c == CH_E {
        lctx.Adv();
        b := BEnd;
        start, len := lctx.start, lctx.len;
      } else if !IsDigit(c) {
        b := ErrUnexpectedByte(lctx.start);
      } else {
        b := NextTokenString(lctx);
      }
    }

    /** The 'i' case of benr_next; lctx is its local copy of the cursor. */
    method NextTokenInt(lctx: Cursor) returns (b: Benr)
      requires Valid() && len > 0 && mem[start] == CH_I
      requires lctx != this && lctx.mem == mem && lctx.start == start && lctx.len == len
      modifies this, lctx
      ensures start + len == old(start + len)
      ensures Step(b, start) == Next(mem, old(start), old(start + len))
    {
      hide ScanUint, NextString;
      lctx.Adv();
      if lctx.len == 0 {
        return ErrUnexpectedEof;
      }
      var d := lctx.Peek();
      var sign := 1;
      if d == MINUS {
        sign := U64 - 1; // -1 converted to uintmax_t
        lctx.Adv();
      }
      b := lctx.InitUint(CH_E);
      if !b.BUint? {
        return;
      }
      b := BInt(ToSigned64(b.u * sign % U64));
      start, len := lctx.start, lctx.len;
    }

    /** The string case of benr_next. */
    method NextTokenString(lctx: Cursor) returns (b: Benr)
      requires Valid() && len > 0 && IsDigit(mem[start])
      requires lctx != this && lctx.mem == mem && lctx.start == start && lctx.len == len
      modifies this, lctx
      ensures start + len == old(start + len)
      ensures Step(b, start) == Next(mem, old(start), old(start + len))
    {
      var bLen := lctx.InitUint(CH_COLON);
      if !bLen.BUint? {
        return bLen;
      }
      if bLen.u > SIZE_MAX || bLen.u > lctx.len {
        return ErrStringTooLong(bLen.u);
      }
      var s := lctx.start;
      lctx.AdvN(bLen.u);
      b := BString(s, bLen.u);
      start, len := lctx.start, lctx.len;
    }

    /**
     * ctx_adv_container: the loop runs on a local copy, which is committed only when
     * the matching end marker was found.
     */
    method AdvContainer() returns (r: int, ghost tokens: nat)
      requires Valid()
      modifies this
      ensures start + len == old(start + len)
      ensures match Skip(mem, old(start), old(start + len))
              case Landed(q) => r == 0 && start == q
              case Failed(code) => r == code && start == old(start)
      ensures tokens == TokensTaken(mem, old(start), old(start + len), 1) <= old(len) + 1
    {
      hide Next, SkipFrom, TokensTaken;
      SkipBounds(mem, start, start + len, 1);
      var lctx := new Cursor(mem, start, len);
      r, tokens := lctx.ToMatchingEnd();
      if r < 0 {
        return;
      }
      start, len := lctx.start, lctx.len;
    }

    /**
     * The loop of ctx_adv_container. The 64-bit depth counter never wraps, and the loop
     * takes as many tokens as TokensTaken says.
     */
    method ToMatchingEnd() returns (r: int, ghost tokens: nat)
      requires Valid()
      modifies this
      ensures Valid() && start + len == old(start + len)
      ensures match Skip(mem, old(start), old(start + len))
              case Landed(q) => r == 0 && start == q
              case Failed(code) => r == code
      ensures tokens == TokensTaken(mem, old(start), old(start + len), 1)
    {
      hide Next, SkipFrom, TokensTaken, KindCode, TokenIs;
      var depth: nat := 1;
      tokens := 0;
      ghost var p, hi := start, start + len;
      while depth > 0
        invariant Valid() && p <= start && start + len == hi
        invariant depth <= 1 + (start - p)
        invariant SkipFrom(mem, start, hi, depth) == SkipFrom(mem, p, hi, 1)
        invariant tokens + TokensTaken(mem, start, hi, depth) == TokensTaken(mem, p, hi, 1)
        decreases len
      {
        SkipStep(mem, start, hi, depth);
        var b := NextToken();
        tokens := tokens + 1;
        if IsContainer(b) {
          depth := (depth + 1) % U64;
        } else if b.BEnd? {
          depth := depth - 1;
        } else if IsError(b) {
          return -KindCode(b), tokens;
        } else if b.BNone? {
          return -KindCode(ErrUnexpectedEof), tokens;
        }
      }
      SkipDone(mem, start, hi);
      return 0, tokens;
    }
  }

  /** benr_init over data_bytes bytes at data. */
  method BenrInit(mem: Bytes, data: nat, data_bytes: nat) returns (b: Benr)
    requires data + data_bytes <= |mem| < SIZE_MAX
    ensures b == Init(mem, data, data + data_bytes)
    ensures !b.BEnd? && !b.BUint?
    ensures if data_bytes > 0 && mem[data] == 'e' as int then b == ErrUnexpectedByte(data)
            else b == Next(mem, data, data + data_bytes).b
  {
    hide Next, TokenIs;
    InitByTable(mem, data, data + data_bytes);
    var lctx := new Cursor(mem, data, data_bytes);
    b := lctx.NextToken();
    if b.BEnd? {
      b := ErrUnexpectedByte(data);
    }
  }

  // benr_as_*: None stands for the return value -1.

  function AsString(b: Benr): Option<Span> { if b.BString? then Some(Span(b.start, b.len)) else None }

  function AsInt(b: Benr): Option<int> { if b.BInt? then Some(b.i) else None }

  function AsDict(b: Benr): Option<Span> { if b.BDict? then Some(b.ctx) else None }

  function AsList(b: Benr): Option<Span> { if b.BList? then Some(b.ctx) else None }

  /** struct benr_list_iter. */
  class ListIter {
    const ctx: Cursor

    constructor (mem: Bytes, l: Span)
      ensures fresh(ctx) && ctx.mem == mem && ctx.start == l.start && ctx.len == l.len
    {
      ctx := new Cursor(mem, l.start, l.len);
    }

    /** benr_list_iter_next; b keeps its previous value when the result is negative. */
    method NextItem(prev: Benr) returns (r: int, b: Benr)
      requires ctx.Valid()
      modifies ctx
      ensures match ListNext(ctx.mem, old(ctx.start), old(ctx.start + ctx.len))
              case Stop(code, c) => r == code && b == prev && ctx.start == c.start && ctx.len == c.len
              case Item(x, q) =>
                r == 0 && b == x && ctx.start == q && ctx.start + ctx.len == old(ctx.start + ctx.len)
    {
      hide Next, SkipFrom, TokenIs;
      b := prev;
      var x := ctx.NextToken();
      if x.BEnd? {
        ctx.len := 0;
        return -1, b;
      }
      if IsContainer(x) {
        ghost var tokens;
        r, tokens := ctx.AdvContainer();
        if r < 0 {
          return;
        }
      }
      return 0, x;
    }
  }

  /** struct benr_dict_iter. */
  class DictIter {
    const ctx: Cursor

    constructor (mem: Bytes, d: Span)
      ensures fresh(ctx) && ctx.mem == mem && ctx.start == d.start && ctx.len == d.len
    {
      ctx := new Cursor(mem, d.start, d.len);
    }

    /** The second half of benr_dict_iter_next: the value, a container skipped at once. */
    method NextValue() returns (r: int, v: Benr)
      requires ctx.Valid()
      modifies ctx
      ensures match ListNext(ctx.mem, old(ctx.start), old(ctx.start + ctx.len))
              case Stop(code, c) => r == code < 0 && ctx.start == c.start && ctx.len == c.len
              case Item(x, q) =>
                r == 0 && v == x && ctx.start == q && ctx.start + ctx.len == old(ctx.start + ctx.len)
    {
      hide Next, SkipFrom, TokenIs;
      v := ctx.NextToken();
      if v.BEnd? {
        ctx.len := 0;
        return -1, v;
      }
      if IsContainer(v) {
        ghost var tokens;
        r, tokens := ctx.AdvContainer();
        if r < 0 {
          return;
        }
      }
      return 0, v;
    }

    /** benr_dict_iter_next; key and val keep their previous values when the result is negative. */
    method NextPair(prevKey: Benr, prevVal: Benr) returns (r: int, key: Benr, val: Benr)
      requires ctx.Valid()
      modifies ctx
      ensures match DictNext(ctx.mem, old(ctx.start), old(ctx.start + ctx.len))
              case DictStop(code, c) =>
                r == code && key == prevKey && val == prevVal && ctx.start == c.start && ctx.len == c.len
              case Pair(k, v, q) =>
                r == 0 && key == k && val == v && ctx.start == q && ctx.start + ctx.len == old(ctx.start + ctx.len)
    {
      hide Next, ListNext, DictNext, TokenIs;
      DictNextByList(ctx.mem, ctx.start, ctx.start + ctx.len);
      var k := ctx.NextToken();
      if k.BEnd? {
        ctx.len := 0;
        return -1, prevKey, prevVal;
      }
      var v;
      r, v := NextValue();
      if r < 0 {
        return r, prevKey, prevVal;
      }
      return 0, k, v;
    }
  }

  // A client that walks everything, as benr-api-test.c does by hand.

  method WalkValue(mem: Bytes, b: Benr) returns (t: Option<Tree>, ghost moved: nat)
    requires Within(mem, b) && |mem| < SIZE_MAX
    ensures t == ReadValue(mem, b).value && moved == ReadValue(mem, b).moved
    decreases Room(b), 1
  {
    hide ReadItems, ReadEntries;
    moved := 0;
    if AsInt(b).Some? {
      t := Some(Integer(AsInt(b).value));
    } else if AsString(b).Some? {
      var s := AsString(b).value;
      t := Some(Text(mem[s.start..s.start + s.len]));
    } else if AsList(b).Some? {
      var ts;
      ts, moved := WalkList(mem, AsList(b).value);
      t := if ts.Some? then Some(List(ts.value)) else None;
    } else if AsDict(b).Some? {
      var es;
      es, moved := WalkDict(mem, AsDict(b).value);
      t := if es.Some? then Some(Dict(es.value)) else None;
    } else {
      t := None;
    }
  }

  /** A partial walk followed by the rest of it. */
  ghost function Resume<T>(done: seq<T>, moved: nat, rest: Visit<seq<T>>): Visit<seq<T>> {
    Visit(if rest.value.Some? then Some(done + rest.value.value) else None, moved + rest.moved)
  }

  lemma ResumeAtStart<T>(rest: Visit<seq<T>>)
    ensures Resume([], 0, rest) == rest
  {
    if rest.value.Some? { assert [] + rest.value.value == rest.value.value; }
  }

  /** Handing one more child over from the rest of a walk to its finished part. */
  lemma ResumeWithItem(mem: Bytes, p: nat, hi: nat, done: seq<Tree>, moved: nat)
    requires p <= hi <= |mem|
    ensures match ListNext(mem, p, hi)
            case Stop(code, c) =>
              Resume(done, moved, ReadItems(mem, p, hi)) ==
              Visit(if code == -1 then Some(done) else None, moved + (c.start - p))
            case Item(b, q) =>
              var v := ReadValue(mem, b);
              if !Advances(b) then Resume(done, moved, ReadItems(mem, p, hi)) == Visit(None, moved)
              else if v.value.None? then
                Resume(done, moved, ReadItems(mem, p, hi)) == Visit(None, moved + (q - p) + v.moved)
              else
                Resume(done, moved, ReadItems(mem, p, hi)) ==
                Resume(done + [v.value.value], moved + (q - p) + v.moved, ReadItems(mem, q, hi))
  {
    hide ListNext, ReadValue;
    match ListNext(mem, p, hi) {
      case Stop(_, _) => assert done + [] == done;
      case Item(b, q) =>
        if Advances(b) && ReadValue(mem, b).value.Some? {
          var t := ReadValue(mem, b).value.value;
          var r := ReadItems(mem, q, hi).value;
          if r.Some? { assert done + ([t] + r.value) == done + [t] + r.value; }
        }
    }
  }

  lemma ResumeWithEntry(mem: Bytes, p: nat, hi: nat, done: seq<Entry>, moved: nat)
    requires p <= hi <= |mem|
    ensures match DictNext(mem, p, hi)
            case DictStop(code, c) =>
              Resume(done, moved, ReadEntries(mem, p, hi)) ==
              Visit(if code == -1 then Some(done) else None, moved + (c.start - p))
            case Pair(k, v, q) =>
              var x := ReadValue(mem, v);
              if !k.BString? then Resume(done, moved, ReadEntries(mem, p, hi)) == Visit(None, moved + (q - p))
              else if x.value.None? then
                Resume(done, moved, ReadEntries(mem, p, hi)) == Visit(None, moved + (q - p) + x.moved)
              else
                var e := Entry(mem[k.start..k.start + k.len], x.value.value);
                Resume(done, moved, ReadEntries(mem, p, hi)) ==
                Resume(done + [e], moved + (q - p) + x.moved, ReadEntries(mem, q, hi))
  {
    hide DictNext, ReadValue;
    match DictNext(mem, p, hi) {
      case DictStop(_, _) => assert done + [] == done;
      case Pair(k, v, q) =>
        if k.BString? && ReadValue(mem, v).value.Some? {
          var e := Entry(mem[k.start..k.start + k.len], ReadValue(mem, v).value.value);
          var r := ReadEntries(mem, q, hi).value;
          if r.Some? { assert done + ([e] + r.value) == done + [e] + r.value; }
        }
    }
  }

  method WalkList(mem: Bytes, l: Span) returns (ts: Option<seq<Tree>>, ghost moved: nat)
    requires l.start + l.len <= |mem| < SIZE_MAX
    ensures ts == ReadItems(mem, l.start, l.start + l.len).value
    ensures moved == ReadItems(mem, l.start, l.start + l.len).moved
    decreases l.len, 0
  {
    hide ListNext, ReadItems, ReadValue, Resume;
    var it := new ListIter(mem, l);
    var items: seq<Tree> := [];
    var b := BNone;
    ghost var hi := l.start + l.len;
    moved := 0;
    ResumeAtStart(ReadItems(mem, l.start, hi));
    while true
      invariant fresh(it.ctx) && it.ctx.mem == mem && it.ctx.Valid()
      invariant l.start <= it.ctx.start && it.ctx.start + it.ctx.len == hi
      invariant ReadItems(mem, l.start, hi) == Resume(items, moved, ReadItems(mem, it.ctx.start, hi))
      decreases it.ctx.len
    {
      ghost var at := it.ctx.start;
      ResumeWithItem(mem, at, hi, items, moved);
      var r;
      r, b := it.NextItem(b);
      moved := moved + (it.ctx.start - at);
      if r < 0 {
        return if r == -1 then Some(items) else None, moved;
      }
      if IsError(b) || b.BNone? {
        return None, moved;
      }
      ghost var inner;
      var t;
      t, inner := WalkValue(mem, b);
      moved := moved + inner;
      if t.None? {
        return None, moved;
      }
      items := items + [t.value];
    }
  }

  method WalkDict(mem: Bytes, d: Span) returns (es: Option<seq<Entry>>, ghost moved: nat)
    requires d.start + d.len <= |mem| < SIZE_MAX
    ensures es == ReadEntries(mem, d.start, d.start + d.len).value
    ensures moved == ReadEntries(mem, d.start, d.start + d.len).moved
    decreases d.len, 0
  {
    hide DictNext, ReadEntries, ReadValue, Resume;
    var it := new DictIter(mem, d);
    var entries: seq<Entry> := [];
    var k, v := BNone, BNone;
    ghost var hi := d.start + d.len;
    moved := 0;
    ResumeAtStart(ReadEntries(mem, d.start, hi));
    while true
      invariant fresh(it.ctx) && it.ctx.mem == mem && it.ctx.Valid()
      invariant d.start <= it.ctx.start && it.ctx.start + it.ctx.len == hi
      invariant ReadEntries(mem, d.start, hi) == Resume(entries, moved, ReadEntries(mem, it.ctx.start, hi))
      decreases it.ctx.len
    {
      ghost var at := it.ctx.start;
      ResumeWithEntry(mem, at, hi, entries, moved);
      var r;
      r, k, v := it.NextPair(k, v);
      moved := moved + (it.ctx.start - at);
      if r < 0 {
        return if r == -1 then Some(entries) else None, moved;
      }
      if AsString(k).None? {
        return None, moved;
      }
      var key := AsString(k).value;
      ghost var inner;
      var t;
      t, inner := WalkValue(mem, v);
      moved := moved + inner;
      if t.None? {
        return None, moved;
      }
      entries := entries + [Entry(mem[key.start..key.start + key.len], t.value)];
    }
  }
}

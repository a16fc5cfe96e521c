/** The message half of bt_dht.c in its own form. */
module BtDht {
  import opened ByteString
  import opened Numerals
  import opened BencodeTree
  import opened Ben
  import opened BenrToken
  import opened BenrIter
  import opened BenrCode
  import opened Krpc
  import opened KrpcPing

  /** The fields of struct krpc_msg that the parser writes. */
  class KrpcMsg {
    var kind: KrpcType
    var query: KrpcQuery

    constructor ()
      ensures kind == KtNone && query == KqNone
    {
      kind, query := KtNone, KqNone;
    }

    ghost function Value(): Msg
      reads this
    {
      Msg(kind, query)
    }

    /** krpc_msg_parse_query. */
    method ParseQueryKind(mem: Bytes, q: Benr) returns (r: int)
      requires Within(mem, q)
      modifies this`query
      ensures r == if ParseQuery(mem, q).Some? then 0 else -1
      ensures query == if ParseQuery(mem, q).Some? then ParseQuery(mem, q).value else old(query)
    {
      if AsString(q).None? {
        return -1;
      }
      var s := mem[q.start..q.start + q.len];
      if s == Ascii("ping") {
        query := KqPing;
      } else if s == Ascii("find_node") {
        query := KqFindNode;
      } else if s == Ascii("get_peers") {
        query := KqGetPeers;
      } else if s == Ascii("announce_peer") {
        query := KqAnnouncePeer;
      } else {
        return -1;
      }
      return 0;
    }

    /**
     * krpc_msg_parse. The source repeats an iteration that moved nothing for ever;
     * here such an iteration makes the outcome Hangs.
     */
    method ParseMessage(mem: Bytes, data: nat, data_len: nat) returns (res: ParseResult)
      requires data + data_len <= |mem| < SIZE_MAX
      modifies this
      ensures res == Parse(mem, data, data + data_len, old(Value()))
      ensures res.Returns? ==> res.msg == Value()
      ensures res.Hangs? ==> Value() == old(Value())
    {
      hide Next, ScanDict, DictNext, ParseY, ParseQuery, Store;
      var top := BenrInit(mem, data, data_len);
      if AsDict(top).None? {
        return Returns(-1, Msg(kind, query));
      }
      var d := AsDict(top).value;
      ghost var hi := d.start + d.len;
      ScanStaysWithin(mem, d.start, hi, EMPTY_SLOTS);
      var slots := ScanEntries(mem, d);
      if slots.None? {
        return Hangs;
      }
      var r;
      kind := ParseY(mem, slots.value.y);
      if kind == KtQuery || kind == KtResponse {
        r := ParseQueryKind(mem, slots.value.q);
      }
      return Returns(-1, Msg(kind, query));
    }
  }

  /** The for (;;) loop of krpc_msg_parse. */
  method ScanEntries(mem: Bytes, d: Span) returns (s: Option<Slots>)
    requires d.start + d.len <= |mem| < SIZE_MAX
    ensures s == ScanDict(mem, d.start, d.start + d.len, EMPTY_SLOTS)
  {
    hide Next, ScanDict, DictNext, Store;
    var topDi := new DictIter(mem, d);
    var slots := EMPTY_SLOTS;
    var k, v := BNone, BNone;
    ghost var hi := d.start + d.len;
    while true
      invariant fresh(topDi.ctx) && topDi.ctx.mem == mem && topDi.ctx.Valid()
      invariant topDi.ctx.start + topDi.ctx.len == hi
      invariant ScanDict(mem, d.start, hi, EMPTY_SLOTS) == ScanDict(mem, topDi.ctx.start, hi, slots)
      decreases topDi.ctx.len
    {
      var before := topDi.ctx.start;
      ScanStep(mem, before, hi, slots);
      var r;
      r, k, v := topDi.NextPair(k, v);
      if r < 0 {
        return Some(slots);
      }
      if topDi.ctx.start == before {
        return None;
      }
      slots := Store(mem, slots, k, v);
    }
  }

  lemma ScanStep(mem: Bytes, p: nat, hi: nat, s: Slots)
    requires p <= hi <= |mem|
    ensures ScanDict(mem, p, hi, s) ==
            match DictNext(mem, p, hi)
            case DictStop(_, _) => Some(s)
            case Pair(k, v, q) => if q == p then None else ScanDict(mem, q, hi, Store(mem, s, k, v))
  {
    hide DictNext, Store;
  }

  /** encode_id. */
  method EncodeId(d: DarrayChar, id: Bytes)
    requires |id| == 20
    modifies d
    ensures d.bytes == old(d.bytes) + EmittedText(id)
  {
    d.String(id);
  }

  /** The { "id" : ... } dictionary both messages carry. */
  method WriteIdDict(d: DarrayChar, id: Bytes)
    requires |id| == 20
    modifies d
    ensures d.bytes == old(d.bytes) + Emitted(IdDict(id))
  {
    hide EmittedText;
    d.DictBegin();
    d.StringC(Ascii("id"));
    EncodeId(d, id);
    d.DictEnd();
    EmittedId(id);
    assert d.bytes == old(d.bytes) + ([CH_D] + EncodeText(Ascii("id")) + EmittedText(id) + [CH_E]);
  }

  lemma EmittedId(id: Bytes)
    ensures Emitted(IdDict(id)) == [CH_D] + EncodeText(Ascii("id")) + EmittedText(id) + [CH_E]
  {
    hide EmittedText;
    var es := [Entry(Ascii("id"), Text(id))];
    assert es[1..] == [];
    FlatEntries(es);
    EmittedTextLength(Ascii("id"));
    assert Emitted(Text(id)) == EmittedText(id);
  }

  /** krpc_gen_ping. */
  method GenPing(d: DarrayChar, id: Bytes, msg_id: Bytes)
    requires |id| == 20 && |msg_id| <= INT_MAX
    modifies d
    ensures d.bytes == old(d.bytes) + Emitted(Ping(id, msg_id))
    ensures d.bytes == old(d.bytes) +
            (Ascii("d1:ad2:id20:") + CString(id) + Ascii("e1:q4:ping1:t")
             + Numeral(|msg_id|) + Ascii(":") + CString(msg_id) + Ascii("1:y1:qe"))
  {
    hide Numeral, CString, EncodeText, EmittedText, Emitted, IdDict;
    ghost var es := Ping(id, msg_id).entries;
    Letters();
    d.DictBegin();
    ghost var at := d.bytes;
    d.StringC(Ascii("a"));
    WriteIdDict(d, id);
    EntryWritten(at, es[0]);
    at := d.bytes;
    d.StringC(Ascii("q"));
    d.StringC(Ascii("ping"));
    EntryWritten(at, es[1]);
    at := d.bytes;
    d.StringC(Ascii("t"));
    d.String(msg_id);
    EntryWritten(at, es[2]);
    at := d.bytes;
    d.StringC(Ascii("y"));
    d.StringC(Ascii("q"));
    EntryWritten(at, es[3]);
    d.DictEnd();
    DictOf4(old(d.bytes), es);
    PingWritten(id, msg_id);
  }

  /** krpc_gen_ping_response. */
  method GenPingResponse(d: DarrayChar, my_id: Bytes, msg_id: Bytes)
    requires |my_id| == 20 && |msg_id| <= INT_MAX
    modifies d
    ensures d.bytes == old(d.bytes) + Emitted(PingResponse(my_id, msg_id))
    ensures d.bytes == old(d.bytes) +
            (Ascii("d1:rd2:id20:") + CString(my_id) + Ascii("e1:t")
             + Numeral(|msg_id|) + Ascii(":") + CString(msg_id) + Ascii("1:y1:re"))
  {
    hide Numeral, CString, EncodeText, EmittedText, Emitted, IdDict;
    ghost var es := PingResponse(my_id, msg_id).entries;
    Letters();
    d.DictBegin();
    ghost var at := d.bytes;
    d.StringC(Ascii("r"));
    WriteIdDict(d, my_id);
    EntryWritten(at, es[0]);
    at := d.bytes;
    d.StringC(Ascii("t"));
    d.String(msg_id);
    EntryWritten(at, es[1]);
    at := d.bytes;
    d.StringC(Ascii("y"));
    d.StringC(Ascii("r"));
    EntryWritten(at, es[2]);
    d.DictEnd();
    DictOf3(old(d.bytes), es);
    PingResponseWritten(my_id, msg_id);
  }

  function Written(e: Entry): Bytes { EmittedText(e.key) + Emitted(e.val) }

  /** A key written with ben_string_c and its value, one after the other, are one entry. */
  lemma EntryWritten(at: Bytes, e: Entry)
    requires NulFreeText(e.key)
    ensures at + EncodeText(e.key) + Emitted(e.val) == at + Written(e)
    ensures e.val.Text? ==> Emitted(e.val) == EmittedText(e.val.bytes)
    ensures e.val.Text? && NulFreeText(e.val.bytes) ==> Emitted(e.val) == EncodeText(e.val.bytes)
  {
    EmittedTextLength(e.key);
    if e.val.Text? { EmittedTextLength(e.val.bytes); }
  }

  lemma DictOf4(at: Bytes, es: seq<Entry>)
    requires |es| == 4
    ensures at + [CH_D] + Written(es[0]) + Written(es[1]) + Written(es[2]) + Written(es[3]) + [CH_E] ==
            at + Emitted(Dict(es))
  {
    hide EmittedText, EmittedEntries, Emitted;
    FlatEntries(es);
    FlatEntries(es[1..]);
    FlatEntries(es[1..][1..]);
    FlatEntries(es[1..][1..][1..]);
    NothingToEmit(es[1..][1..][1..][1..]);
    EmittedDict(es);
    Flatten(Written(es[0]), Written(es[1]), Written(es[2]), Written(es[3]));
    Behind(at, [CH_D], Written(es[0]), Written(es[1]), Written(es[2]), Written(es[3]), [CH_E]);
  }

  lemma Behind(at: Bytes, d: Bytes, a: Bytes, b: Bytes, c: Bytes, w: Bytes, e: Bytes)
    ensures at + (d + a + b + c + w + e) == at + d + a + b + c + w + e
  {
    Associate(at, d + a + b + c + w, e);
    Associate(at, d + a + b + c, w);
    Associate(at, d + a + b, c);
    Associate(at, d + a, b);
    Associate(at, d, a);
  }

  lemma DictOf3(at: Bytes, es: seq<Entry>)
    requires |es| == 3
    ensures at + [CH_D] + Written(es[0]) + Written(es[1]) + Written(es[2]) + [CH_E] == at + Emitted(Dict(es))
  {
    hide EmittedText, EmittedEntries, Emitted;
    FlatEntries(es);
    FlatEntries(es[1..]);
    FlatEntries(es[1..][1..]);
    NothingToEmit(es[1..][1..][1..]);
    EmittedDict(es);
    NothingMore([]);
    Flatten(Written(es[0]), Written(es[1]), Written(es[2]), []);
    Behind(at, [CH_D], Written(es[0]), Written(es[1]), Written(es[2]), [], [CH_E]);
    NothingMore(at + [CH_D] + Written(es[0]) + Written(es[1]) + Written(es[2]));
  }

  lemma NothingMore(s: Bytes)
    ensures s + [] == s
  {
  }
}

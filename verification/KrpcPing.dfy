/** The ping query and its response: canonical bencoding, recognized by the parser, identifiers intact. */
module KrpcPing {
  import opened ByteString
  import opened Numerals
  import opened BencodeTree
  import opened BenrIter
  import opened BenrRoundTrip
  import opened Krpc
  import opened KrpcMeaning

  /** BEP 5 "ping": d1:ad2:id20:<id>e1:q4:ping1:t<tid>1:y1:qe. */
  function Ping(id: Bytes, tid: Bytes): Tree {
    Dict([
      Entry(Ascii("a"), IdDict(id)),
      Entry(Ascii("q"), Text(Ascii("ping"))),
      Entry(Ascii("t"), Text(tid)),
      Entry(Ascii("y"), Text(Ascii("q")))
    ])
  }

  /** BEP 5 "ping" response: d1:rd2:id20:<id>e1:t<tid>1:y1:re. */
  function PingResponse(id: Bytes, tid: Bytes): Tree {
    Dict([
      Entry(Ascii("r"), IdDict(id)),
      Entry(Ascii("t"), Text(tid)),
      Entry(Ascii("y"), Text(Ascii("r")))
    ])
  }

  function IdDict(id: Bytes): Tree { Dict([Entry(Ascii("id"), Text(id))]) }

  lemma {:induction false} FlatEntries(es: seq<Entry>)
    requires es != []
    ensures EmittedEntries(es) == EmittedText(es[0].key) + Emitted(es[0].val) + EmittedEntries(es[1..])
    ensures EmittableEntries(es) <==> EmittableText(es[0].key) && Emittable(es[0].val) && EmittableEntries(es[1..])
    ensures NulFreeEntries(es) <==> NulFreeText(es[0].key) && NulFree(es[0].val) && NulFreeEntries(es[1..])
    ensures forall key :: LastValue(es, key) ==
              if LastValue(es[1..], key).Some? then LastValue(es[1..], key)
              else if es[0].key == key then Some(es[0].val) else None
  {
  }

  lemma IdDictFacts(id: Bytes)
    requires |id| == 20
    ensures Emittable(IdDict(id)) && KeysAscending(IdDict(id))
    ensures NulFree(IdDict(id)) <==> NulFreeText(id)
  {
    var es := [Entry(Ascii("id"), Text(id))];
    assert es[1..] == [];
    FlatEntries(es);
  }

  lemma PingFacts(id: Bytes, tid: Bytes)
    requires |id| == 20 && |tid| <= INT_MAX
    ensures Emittable(Ping(id, tid))
    ensures NulFree(Ping(id, tid)) <==> NulFreeText(id) && NulFreeText(tid)
    ensures LastValue(Ping(id, tid).entries, [LETTER_Y]) == Some(Text([LETTER_Q]))
    ensures LastValue(Ping(id, tid).entries, [LETTER_Q]) == Some(Text(Ascii("ping")))
    ensures LastValue(Ping(id, tid).entries, [LETTER_T]) == Some(Text(tid))
  {
    hide IdDict, LastValue, EmittableEntries, NulFreeEntries;
    IdDictFacts(id);
    var es := Ping(id, tid).entries;
    Letters();
    FlatEntries(es);
    FlatEntries(es[1..]);
    FlatEntries(es[1..][1..]);
    FlatEntries(es[1..][1..][1..]);
    NoMoreEntries(es[1..][1..][1..][1..]);
  }

  lemma NoMoreEntries(es: seq<Entry>)
    requires es == []
    ensures EmittableEntries(es) && NulFreeEntries(es) && forall key :: LastValue(es, key) == None
  {
  }

  lemma Letters()
    ensures Ascii("a") == [LETTER_A] && Ascii("q") == [LETTER_Q] && Ascii("r") == [LETTER_R]
    ensures Ascii("t") == [LETTER_T] && Ascii("y") == [LETTER_Y]
    ensures NulFreeText(Ascii("ping"))
  {
  }

  lemma PingResponseFacts(id: Bytes, tid: Bytes)
    requires |id| == 20 && |tid| <= INT_MAX
    ensures Emittable(PingResponse(id, tid))
    ensures NulFree(PingResponse(id, tid)) <==> NulFreeText(id) && NulFreeText(tid)
    ensures LastValue(PingResponse(id, tid).entries, [LETTER_Y]) == Some(Text([LETTER_R]))
    ensures LastValue(PingResponse(id, tid).entries, [LETTER_Q]) == None
    ensures LastValue(PingResponse(id, tid).entries, [LETTER_T]) == Some(Text(tid))
  {
    hide IdDict, LastValue, EmittableEntries, NulFreeEntries;
    IdDictFacts(id);
    var es := PingResponse(id, tid).entries;
    Letters();
    FlatEntries(es);
    FlatEntries(es[1..]);
    FlatEntries(es[1..][1..]);
    NoMoreEntries(es[1..][1..][1..]);
  }

  /** Keys come in strictly ascending order at every level, as BEP 3 demands of dictionaries. */
  lemma PingKeysAscend(id: Bytes, tid: Bytes)
    requires |id| == 20
    ensures KeysAscending(Ping(id, tid)) && KeysAscending(PingResponse(id, tid))
  {
    hide IdDict;
    IdDictFacts(id);
    Letters();
  }

  /** What the parser has found under "t" after scanning the message, as bytes. */
  function TransactionId(mem: Bytes): Option<Bytes> {
    var s := if |mem| == 0 then None else ScanDict(mem, 1, |mem|, EMPTY_SLOTS);
    if s.Some? && s.value.t.BString? && s.value.t.start + s.value.t.len <= |mem|
    then Some(mem[s.value.t.start..s.value.t.start + s.value.t.len])
    else None
  }

  lemma TransactionIdReadsBack(es: seq<Entry>, tid: Bytes)
    requires Emittable(Dict(es)) && NulFree(Dict(es)) && LastValue(es, [LETTER_T]) == Some(Text(tid))
    ensures TransactionId(Emitted(Dict(es))) == Some(tid)
  {
    hide Emitted, Read, ScanDict, LastValue, LastTop, TopsOf, TopEntries;
    var mem := Emitted(Dict(es));
    RoundTripIffNulFree(Dict(es));
    ReadMessage(mem, 0, |mem|, es);
    MessageSlots(mem, 1, |mem|);
    LetterTexts();
    LastOfTops(es, [LETTER_T]);
  }

  /**
   * For every identifier and transaction id without zero bytes the emitted ping is exactly one
   * dictionary with ascending keys, the parser takes it for a ping query, and "t" reads back.
   */
  lemma PingIsRecognized(id: Bytes, tid: Bytes, msg: Msg)
    requires |id| == 20 && |tid| <= INT_MAX && NulFreeText(id) && NulFreeText(tid)
    ensures var mem := Emitted(Ping(id, tid));
            && mem == Encode(Ping(id, tid)) && KeysAscending(Ping(id, tid))
            && Read(mem, 0, |mem|).value == Some(Ping(id, tid))
            && Parse(mem, 0, |mem|, msg) == Returns(-1, Msg(KtQuery, KqPing))
            && TransactionId(mem) == Some(tid)
  {
    hide Emitted, Encode, Parse, Read, ScanDict, TransactionId, Ping, LastValue, KeysAscending;
    PingIsADict(id, tid);
    var t := Ping(id, tid);
    var mem := Emitted(t);
    PingFacts(id, tid);
    PingKeysAscend(id, tid);
    EmittedIffNulFree(t);
    RoundTripIffNulFree(t);
    assert mem + [] == mem;
    ParseReadable(mem, 0, |mem|, t.entries, msg);
    TransactionIdReadsBack(t.entries, tid);
    Letters();
  }

  lemma PingIsADict(id: Bytes, tid: Bytes)
    ensures Ping(id, tid).Dict? && Ping(id, tid) == Dict(Ping(id, tid).entries)
    ensures PingResponse(id, tid).Dict? && PingResponse(id, tid) == Dict(PingResponse(id, tid).entries)
  {
  }

  /** The response likewise; it carries no "q", so the query kind stays what it was. */
  lemma PingResponseIsRecognized(id: Bytes, tid: Bytes, msg: Msg)
    requires |id| == 20 && |tid| <= INT_MAX && NulFreeText(id) && NulFreeText(tid)
    ensures var mem := Emitted(PingResponse(id, tid));
            && mem == Encode(PingResponse(id, tid)) && KeysAscending(PingResponse(id, tid))
            && Read(mem, 0, |mem|).value == Some(PingResponse(id, tid))
            && Parse(mem, 0, |mem|, msg) == Returns(-1, Msg(KtResponse, msg.query))
            && TransactionId(mem) == Some(tid)
  {
    hide Emitted, Encode, Parse, Read, ScanDict, TransactionId, PingResponse, LastValue, KeysAscending;
    PingIsADict(id, tid);
    var t := PingResponse(id, tid);
    var mem := Emitted(t);
    PingResponseFacts(id, tid);
    PingKeysAscend(id, tid);
    EmittedIffNulFree(t);
    RoundTripIffNulFree(t);
    assert mem + [] == mem;
    ParseReadable(mem, 0, |mem|, t.entries, msg);
    TransactionIdReadsBack(t.entries, tid);
  }

  /** Either message survives its own bytes exactly when neither identifier holds a zero byte. */
  lemma PingSurvivesIffNulFree(id: Bytes, tid: Bytes)
    requires |id| == 20 && |tid| <= INT_MAX
    ensures var mem := Emitted(Ping(id, tid));
            Read(mem, 0, |mem|).value == Some(Ping(id, tid)) <==> NulFreeText(id) && NulFreeText(tid)
    ensures var mem := Emitted(PingResponse(id, tid));
            Read(mem, 0, |mem|).value == Some(PingResponse(id, tid)) <==> NulFreeText(id) && NulFreeText(tid)
  {
    hide Emitted, Read, Ping, PingResponse, LastValue;
    PingFacts(id, tid);
    RoundTripIffNulFree(Ping(id, tid));
    PingResponseFacts(id, tid);
    RoundTripIffNulFree(PingResponse(id, tid));
  }

  // The wire format, spelled out.

  lemma Numbers()
    ensures Numeral(1) == Ascii("1") && Numeral(2) == Ascii("2") && Numeral(4) == Ascii("4")
    ensures Numeral(20) == Ascii("20")
  {
    assert Numeral(2) + [ZERO] == Numeral(20);
  }

  /** The dictionary with the identifier. */
  lemma IdDictBytes(id: Bytes)
    requires |id| == 20
    ensures Encode(IdDict(id)) == Ascii("d2:id20:") + id + Ascii("e")
  {
    hide Numeral;
    Numbers();
    var es := [Entry(Ascii("id"), Text(id))];
    assert es[1..] == [];
    assert EncodeEntries(es) == EncodeText(Ascii("id")) + Encode(Text(id)) + EncodeEntries([]);
    assert EncodeText(Ascii("id")) == Ascii("2:id");
    assert EncodeText(id) == Ascii("20:") + id;
  }

  lemma FourEntries(es: seq<Entry>)
    requires |es| == 4
    ensures Encode(Dict(es)) ==
            [CH_D] + (EncodeText(es[0].key) + Encode(es[0].val)) + (EncodeText(es[1].key) + Encode(es[1].val))
            + (EncodeText(es[2].key) + Encode(es[2].val)) + (EncodeText(es[3].key) + Encode(es[3].val)) + [CH_E]
  {
    hide EncodeText, EncodeEntries;
    EntriesHead(es);
    EntriesHead(es[1..]);
    EntriesHead(es[1..][1..]);
    EntriesHead(es[1..][1..][1..]);
    NothingToEncode(es[1..][1..][1..][1..]);
    Flatten(EncodeText(es[0].key) + Encode(es[0].val), EncodeText(es[1].key) + Encode(es[1].val),
            EncodeText(es[2].key) + Encode(es[2].val), EncodeText(es[3].key) + Encode(es[3].val));
    EncodedDict(es);
  }

  lemma EncodedDict(es: seq<Entry>)
    ensures Encode(Dict(es)) == [CH_D] + EncodeEntries(es) + [CH_E]
  {
    hide EncodeEntries;
  }

  lemma NothingToEncode(es: seq<Entry>)
    requires es == []
    ensures EncodeEntries(es) == []
  {
  }

  lemma Flatten(a: Bytes, b: Bytes, c: Bytes, d: Bytes)
    ensures [CH_D] + (a + (b + (c + (d + [])))) + [CH_E] == [CH_D] + a + b + c + d + [CH_E]
  {
    assert d + [] == d;
    Associate(b, c, d);
    Associate(a, b + c, d);
    Associate(a, b, c);
    Associate([CH_D], a + b + c, d);
    Associate([CH_D], a + b, c);
    Associate([CH_D], a, b);
  }

  lemma EntriesHead(es: seq<Entry>)
    requires es != []
    ensures EncodeEntries(es) == EncodeText(es[0].key) + Encode(es[0].val) + EncodeEntries(es[1..])
  {
  }

  lemma LetterBytes(c: string)
    requires |c| == 1 && c[0] < 128 as char
    ensures EncodeText(Ascii(c)) == Ascii("1:" + c)
  {
    hide Numeral;
    Numbers();
  }

  lemma PingTextBytes()
    ensures EncodeText(Ascii("ping")) == Ascii("4:ping")
  {
    hide Numeral;
    Numbers();
  }

  // Regrouping concatenations.

  lemma Regroup3(a: Bytes, b: Bytes, p: Bytes, m: Bytes, x: Bytes)
    ensures a + (b + (p + m + x)) == a + b + p + m + x
  {
  }

  lemma Regroup2(l: Bytes, x: Bytes, y: Bytes, k: Bytes, v: Bytes)
    ensures l + x + y + (k + v) == l + (x + y + k) + v
  {
  }

  lemma Regroup1(m: Bytes, n: Bytes, c: Bytes, t: Bytes)
    ensures m + (n + c + t) == m + n + c + t
  {
  }

  lemma Packet(d: Bytes, a: Bytes, p: Bytes, id: Bytes, x: Bytes, q: Bytes, v: Bytes, t: Bytes,
               n: Bytes, c: Bytes, tid: Bytes, y: Bytes, w: Bytes, e: Bytes)
    ensures Grouped(d, a, p, id, x, q, v, t, n, c, tid, y, w, e) ==
            d + a + p + id + (x + (q + v) + t) + n + c + tid + (y + w + e)
  {
    Regroup3(d, a, p, id, x);
    var l := d + a + p + id;
    Regroup2(l, x, q + v, t, n + c + tid);
    var m := l + (x + (q + v) + t);
    Regroup1(m, n, c, tid);
    Associate(m + n + c + tid, y + w, e);
  }

  /** The fixed parts of the packet. */
  lemma PacketParts()
    ensures Ascii("d1:ad2:id20:") == [CH_D] + EncodeText(Ascii("a")) + Ascii("d2:id20:")
    ensures Ascii("e1:q4:ping1:t") ==
            Ascii("e") + (EncodeText(Ascii("q")) + Encode(Text(Ascii("ping")))) + EncodeText(Ascii("t"))
    ensures Ascii("1:y1:qe") == EncodeText(Ascii("y")) + Encode(Text(Ascii("q"))) + [CH_E]
  {
    hide Numeral, EncodeText;
    LetterBytes("a");
    LetterBytes("q");
    LetterBytes("t");
    LetterBytes("y");
    PingTextBytes();
    PingPieces();
  }

  lemma PingByEntries(id: Bytes, tid: Bytes)
    ensures Encode(Ping(id, tid)) ==
            [CH_D] + (EncodeText(Ascii("a")) + Encode(IdDict(id)))
            + (EncodeText(Ascii("q")) + Encode(Text(Ascii("ping"))))
            + (EncodeText(Ascii("t")) + Encode(Text(tid)))
            + (EncodeText(Ascii("y")) + Encode(Text(Ascii("q")))) + [CH_E]
  {
    hide IdDict, Encode, EncodeText, Ascii;
    FourEntries(Ping(id, tid).entries);
  }

  /** The four entries, with the identifier dictionary and the transaction id taken apart. */
  function Grouped(d: Bytes, a: Bytes, p: Bytes, id: Bytes, x: Bytes, q: Bytes, v: Bytes, t: Bytes,
                   n: Bytes, c: Bytes, tid: Bytes, y: Bytes, w: Bytes, e: Bytes): Bytes
  {
    d + (a + (p + id + x)) + (q + v) + (t + (n + c + tid)) + (y + w) + e
  }

  lemma PingGrouped(id: Bytes, tid: Bytes)
    requires |id| == 20
    ensures Encode(Ping(id, tid)) ==
            Grouped([CH_D], EncodeText(Ascii("a")), Ascii("d2:id20:"), id, Ascii("e"), EncodeText(Ascii("q")),
                    Encode(Text(Ascii("ping"))), EncodeText(Ascii("t")), Numeral(|tid|), Ascii(":"), tid,
                    EncodeText(Ascii("y")), Encode(Text(Ascii("q"))), [CH_E])
  {
    hide Numeral, IdDict, Encode, EncodeText, Ascii, Ping;
    PingByEntries(id, tid);
    IdDictBytes(id);
    ValueBytes(tid);
  }

  /** The ping query is, byte for byte, the packet BEP 5 shows. */
  lemma {:induction false} PingBytes(id: Bytes, tid: Bytes)
    requires |id| == 20
    ensures Encode(Ping(id, tid)) ==
            Ascii("d1:ad2:id20:") + id + Ascii("e1:q4:ping1:t") + Numeral(|tid|) + Ascii(":") + tid + Ascii("1:y1:qe")
  {
    hide Numeral, IdDict, Encode, EncodeText, Ascii, Ping, Grouped;
    PingGrouped(id, tid);
    PacketParts();
    Assemble(Encode(Ping(id, tid)), Ascii("d1:ad2:id20:"), Ascii("e1:q4:ping1:t"), Ascii("1:y1:qe"),
             [CH_D], EncodeText(Ascii("a")), Ascii("d2:id20:"), id, Ascii("e"), EncodeText(Ascii("q")),
             Encode(Text(Ascii("ping"))), EncodeText(Ascii("t")), Numeral(|tid|), Ascii(":"), tid,
             EncodeText(Ascii("y")), Encode(Text(Ascii("q"))), [CH_E]);
  }

  lemma Assemble(enc: Bytes, head: Bytes, query: Bytes, tail: Bytes,
                 d: Bytes, a: Bytes, p: Bytes, id: Bytes, x: Bytes, q: Bytes, v: Bytes, t: Bytes,
                 n: Bytes, c: Bytes, tid: Bytes, y: Bytes, w: Bytes, e: Bytes)
    requires enc == Grouped(d, a, p, id, x, q, v, t, n, c, tid, y, w, e)
    requires head == d + a + p && query == x + (q + v) + t && tail == y + w + e
    ensures enc == head + id + query + n + c + tid + tail
  {
    hide Grouped;
    Packet(d, a, p, id, x, q, v, t, n, c, tid, y, w, e);
  }

  lemma ValueBytes(tid: Bytes)
    ensures Encode(Text(tid)) == Numeral(|tid|) + Ascii(":") + tid
  {
    hide Numeral;
    assert Ascii(":") == [CH_COLON];
  }

  /** Pieces of the packet, put together. */
  lemma PingPieces()
    ensures [CH_D] + Ascii("1:a") + Ascii("d2:id20:") == Ascii("d1:ad2:id20:")
    ensures Ascii("e") + (Ascii("1:q") + Ascii("4:ping")) + Ascii("1:t") == Ascii("e1:q4:ping1:t")
    ensures Ascii("1:y") + Ascii("1:q") + [CH_E] == Ascii("1:y1:qe")
    ensures "1:" + "a" == "1:a" && "1:" + "q" == "1:q" && "1:" + "t" == "1:t" && "1:" + "y" == "1:y"
  {
  }

  // The response.

  lemma ResponseByEntries(id: Bytes, tid: Bytes)
    ensures Encode(PingResponse(id, tid)) ==
            [CH_D] + (EncodeText(Ascii("r")) + Encode(IdDict(id))) + (EncodeText(Ascii("t")) + Encode(Text(tid)))
            + (EncodeText(Ascii("y")) + Encode(Text(Ascii("r")))) + [CH_E]
  {
    hide IdDict, Encode, EncodeText, EncodeEntries, Ascii;
    var es := PingResponse(id, tid).entries;
    EntriesHead(es);
    EntriesHead(es[1..]);
    EntriesHead(es[1..][1..]);
    NothingToEncode(es[1..][1..][1..]);
    EncodedDict(es);
    Flatten3(EncodeText(es[0].key) + Encode(es[0].val), EncodeText(es[1].key) + Encode(es[1].val),
             EncodeText(es[2].key) + Encode(es[2].val));
  }

  lemma Flatten3(a: Bytes, b: Bytes, c: Bytes)
    ensures [CH_D] + (a + (b + (c + []))) + [CH_E] == [CH_D] + a + b + c + [CH_E]
  {
    assert c + [] == c;
    Associate(a, b, c);
    Associate([CH_D], a + b, c);
    Associate([CH_D], a, b);
  }

  lemma ResponseParts()
    ensures Ascii("d1:rd2:id20:") == [CH_D] + EncodeText(Ascii("r")) + Ascii("d2:id20:")
    ensures Ascii("e1:t") == Ascii("e") + EncodeText(Ascii("t"))
    ensures Ascii("1:y1:re") == EncodeText(Ascii("y")) + Encode(Text(Ascii("r"))) + [CH_E]
  {
    hide Numeral, EncodeText;
    LetterBytes("r");
    LetterBytes("t");
    LetterBytes("y");
    ResponsePieces();
  }

  lemma ResponsePieces()
    ensures [CH_D] + Ascii("1:r") + Ascii("d2:id20:") == Ascii("d1:rd2:id20:")
    ensures Ascii("e") + Ascii("1:t") == Ascii("e1:t")
    ensures Ascii("1:y") + Ascii("1:r") + [CH_E] == Ascii("1:y1:re")
    ensures "1:" + "r" == "1:r" && "1:" + "t" == "1:t" && "1:" + "y" == "1:y"
  {
  }

  lemma ShortPacket(d: Bytes, a: Bytes, p: Bytes, id: Bytes, x: Bytes, t: Bytes,
                    n: Bytes, c: Bytes, tid: Bytes, y: Bytes, w: Bytes, e: Bytes)
    ensures d + (a + (p + id + x)) + (t + (n + c + tid)) + (y + w) + e ==
            d + a + p + id + (x + t) + n + c + tid + (y + w + e)
  {
    Regroup3(d, a, p, id, x);
    var l := d + a + p + id;
    Associate(l, x, t);
    Associate(l + x, t, n + c + tid);
    Regroup1(l + (x + t), n, c, tid);
    Associate(l + (x + t) + n + c + tid, y + w, e);
  }

  /** The response is, byte for byte, the packet BEP 5 shows: the identifier stands under "r". */
  lemma {:induction false} PingResponseBytes(id: Bytes, tid: Bytes)
    requires |id| == 20
    ensures Encode(PingResponse(id, tid)) ==
            Ascii("d1:rd2:id20:") + id + Ascii("e1:t") + Numeral(|tid|) + Ascii(":") + tid + Ascii("1:y1:re")
  {
    hide Numeral, IdDict, Encode, EncodeText, Ascii, PingResponse;
    ResponseByEntries(id, tid);
    IdDictBytes(id);
    ValueBytes(tid);
    ResponseParts();
    ShortPacket([CH_D], EncodeText(Ascii("r")), Ascii("d2:id20:"), id, Ascii("e"), EncodeText(Ascii("t")),
                Numeral(|tid|), Ascii(":"), tid, EncodeText(Ascii("y")), Encode(Text(Ascii("r"))), [CH_E]);
  }

  // What is actually written, zero bytes in the identifiers included.

  lemma EmittedHead(es: seq<Entry>)
    requires es != [] && NulFreeText(es[0].key)
    ensures EmittedEntries(es) == EncodeText(es[0].key) + Emitted(es[0].val) + EmittedEntries(es[1..])
  {
    hide EncodeText, Emitted;
    EmittedTextLength(es[0].key);
    FlatEntries(es);
  }

  lemma NothingToEmit(es: seq<Entry>)
    requires es == []
    ensures EmittedEntries(es) == []
  {
  }

  lemma EmittedDict(es: seq<Entry>)
    ensures Emitted(Dict(es)) == [CH_D] + EmittedEntries(es) + [CH_E]
  {
    hide EmittedEntries;
  }

  lemma EmittedValue(s: Bytes)
    ensures Emitted(Text(s)) == Numeral(|s|) + Ascii(":") + CString(s)
    ensures NulFreeText(s) ==> Emitted(Text(s)) == Encode(Text(s))
  {
    hide Numeral, CString;
    EmittedTextLength(s);
    assert Ascii(":") == [CH_COLON];
  }

  lemma PlainKeys()
    ensures NulFreeText(Ascii("a")) && NulFreeText(Ascii("q")) && NulFreeText(Ascii("r")) && NulFreeText(Ascii("t"))
    ensures NulFreeText(Ascii("y")) && NulFreeText(Ascii("id")) && NulFreeText(Ascii("ping"))
  {
  }

  lemma EmittedIdBytes(id: Bytes)
    requires |id| == 20
    ensures Emitted(IdDict(id)) == Ascii("d2:id20:") + CString(id) + Ascii("e")
  {
    hide Numeral, CString, EncodeText, Emitted, EmittedEntries, Ascii;
    Numbers();
    var es := [Entry(Ascii("id"), Text(id))];
    PlainKeys();
    EmittedHead(es);
    NothingToEmit(es[1..]);
    EmittedDict(es);
    EmittedValue(id);
    IdKeyBytes();
    IdTogether([CH_D], EncodeText(Ascii("id")), Ascii("20"), Ascii(":"), CString(id), [CH_E]);
  }

  lemma IdTogether(d: Bytes, k: Bytes, n: Bytes, c: Bytes, v: Bytes, e: Bytes)
    ensures d + (k + (n + c + v) + []) + e == d + k + n + c + v + e
  {
    assert k + (n + c + v) + [] == k + (n + c + v);
    Associate(n, c, v);
    Associate(d, k, n + (c + v));
    Associate(d + k, n, c + v);
    Associate(d + k + n, c, v);
  }

  lemma IdKeyBytes()
    ensures [CH_D] + EncodeText(Ascii("id")) + Ascii("20") + Ascii(":") == Ascii("d2:id20:")
    ensures [CH_E] == Ascii("e")
  {
    hide Numeral;
    Numbers();
  }

  /** The ping query as written, for every identifier and transaction id. */
  lemma {:induction false} PingWritten(id: Bytes, tid: Bytes)
    requires |id| == 20
    ensures Emitted(Ping(id, tid)) ==
            Ascii("d1:ad2:id20:") + CString(id) + Ascii("e1:q4:ping1:t")
            + Numeral(|tid|) + Ascii(":") + CString(tid) + Ascii("1:y1:qe")
  {
    hide Numeral, CString, IdDict, Encode, Emitted, EncodeText, EmittedEntries, Ascii, Grouped;
    var es := Ping(id, tid).entries;
    PlainKeys();
    EmittedHead(es);
    EmittedHead(es[1..]);
    EmittedHead(es[1..][1..]);
    EmittedHead(es[1..][1..][1..]);
    NothingToEmit(es[1..][1..][1..][1..]);
    EmittedDict(es);
    EmittedIdBytes(id);
    EmittedValue(tid);
    EmittedValue(Ascii("ping"));
    LettersWritten();
    Flatten(EncodeText(Ascii("a")) + Emitted(IdDict(id)), EncodeText(Ascii("q")) + Encode(Text(Ascii("ping"))),
            EncodeText(Ascii("t")) + Emitted(Text(tid)), EncodeText(Ascii("y")) + Encode(Text(Ascii("q"))));
    GroupedIs(EncodeText(Ascii("a")), CString(id), EncodeText(Ascii("q")), Encode(Text(Ascii("ping"))),
              EncodeText(Ascii("t")), Numeral(|tid|), CString(tid), EncodeText(Ascii("y")), Encode(Text(Ascii("q"))));
    PacketParts();
    Assemble(Emitted(Ping(id, tid)), Ascii("d1:ad2:id20:"), Ascii("e1:q4:ping1:t"), Ascii("1:y1:qe"),
             [CH_D], EncodeText(Ascii("a")), Ascii("d2:id20:"), CString(id), Ascii("e"), EncodeText(Ascii("q")),
             Encode(Text(Ascii("ping"))), EncodeText(Ascii("t")), Numeral(|tid|), Ascii(":"), CString(tid),
             EncodeText(Ascii("y")), Encode(Text(Ascii("q"))), [CH_E]);
  }

  lemma LettersWritten()
    ensures Emitted(Text(Ascii("q"))) == Encode(Text(Ascii("q")))
    ensures Emitted(Text(Ascii("r"))) == Encode(Text(Ascii("r")))
  {
    hide Encode, Emitted, Ascii;
    PlainKeys();
    EmittedValue(Ascii("q"));
    EmittedValue(Ascii("r"));
  }

  lemma GroupedIs(a: Bytes, id: Bytes, q: Bytes, v: Bytes, t: Bytes, n: Bytes, tid: Bytes, y: Bytes, w: Bytes)
    ensures Grouped([CH_D], a, Ascii("d2:id20:"), id, Ascii("e"), q, v, t, n, Ascii(":"), tid, y, w, [CH_E]) ==
            [CH_D] + (a + (Ascii("d2:id20:") + id + Ascii("e"))) + (q + v) + (t + (n + Ascii(":") + tid))
            + (y + w) + [CH_E]
  {
  }

  /** The response as written. */
  lemma {:induction false} PingResponseWritten(id: Bytes, tid: Bytes)
    requires |id| == 20
    ensures Emitted(PingResponse(id, tid)) ==
            Ascii("d1:rd2:id20:") + CString(id) + Ascii("e1:t")
            + Numeral(|tid|) + Ascii(":") + CString(tid) + Ascii("1:y1:re")
  {
    hide Numeral, CString, IdDict, Encode, Emitted, EncodeText, EmittedEntries, Ascii;
    var es := PingResponse(id, tid).entries;
    PlainKeys();
    EmittedHead(es);
    EmittedHead(es[1..]);
    EmittedHead(es[1..][1..]);
    NothingToEmit(es[1..][1..][1..]);
    EmittedDict(es);
    EmittedIdBytes(id);
    EmittedValue(tid);
    LettersWritten();
    Flatten3(EncodeText(Ascii("r")) + Emitted(IdDict(id)), EncodeText(Ascii("t")) + Emitted(Text(tid)),
             EncodeText(Ascii("y")) + Encode(Text(Ascii("r"))));
    ResponseParts();
    ShortPacket([CH_D], EncodeText(Ascii("r")), Ascii("d2:id20:"), CString(id), Ascii("e"), EncodeText(Ascii("t")),
                Numeral(|tid|), Ascii(":"), CString(tid), EncodeText(Ascii("y")), Encode(Text(Ascii("r"))), [CH_E]);
  }
}

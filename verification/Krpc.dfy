/**
 * The KRPC messages of bt_dht.c: which bytes the writers produce and what krpc_msg_parse makes
 * of a datagram (BEP 5, sections "KRPC Protocol" and "ping").
 */
module Krpc {
  import opened ByteString
  import opened BenrToken
  import opened BenrIter

  datatype KrpcType = KtNone | KtQuery | KtResponse | KtError

  datatype KrpcQuery = KqNone | KqPing | KqFindNode | KqGetPeers | KqAnnouncePeer

  /** The fields of struct krpc_msg that krpc_msg_parse writes. */
  datatype Msg = Msg(kind: KrpcType, query: KrpcQuery)

  const LETTER_A: Byte := 97
  const LETTER_E: Byte := 101
  const LETTER_Q: Byte := 113
  const LETTER_R: Byte := 114
  const LETTER_T: Byte := 116
  const LETTER_V: Byte := 118
  const LETTER_Y: Byte := 121

  /** The notable entries of the top-level dictionary: v_a ... v_v. */
  datatype Slots = Slots(a: Benr, e: Benr, q: Benr, r: Benr, t: Benr, y: Benr, v: Benr)

  const EMPTY_SLOTS := Slots(BNone, BNone, BNone, BNone, BNone, BNone, BNone)

  /** The slot kept under a one-byte key, if there is one. */
  function Slot(s: Slots, c: Byte): Benr {
    if c == LETTER_A then s.a
    else if c == LETTER_E then s.e
    else if c == LETTER_Q then s.q
    else if c == LETTER_R then s.r
    else if c == LETTER_T then s.t
    else if c == LETTER_Y then s.y
    else if c == LETTER_V then s.v
    else BNone
  }

  predicate IsLetter(c: Byte) {
    c == LETTER_A || c == LETTER_E || c == LETTER_Q || c == LETTER_R || c == LETTER_T || c == LETTER_Y || c == LETTER_V
  }

  /** What one pass of the scanning loop stores: keys that are no one-byte strings are passed over. */
  function Store(mem: Bytes, s: Slots, k: Benr, v: Benr): Slots
    requires Within(mem, k)
  {
    if !k.BString? || k.len != 1 then s
    else
      var c := mem[k.start];
      if c == LETTER_A then s.(a := v)
      else if c == LETTER_E then s.(e := v)
      else if c == LETTER_Q then s.(q := v)
      else if c == LETTER_R then s.(r := v)
      else if c == LETTER_T then s.(t := v)
      else if c == LETTER_Y then s.(y := v)
      else if c == LETTER_V then s.(v := v)
      else s
  }

  /**
   * The scanning loop. The iterator answers an error or the end of the input with success and an
   * unmoved cursor, and the loop goes on: None stands for a loop that never ends.
   */
  function ScanDict(mem: Bytes, p: nat, hi: nat, s: Slots): Option<Slots>
    requires p <= hi <= |mem|
    decreases hi - p
  {
    match DictNext(mem, p, hi)
    case DictStop(_, _) => Some(s)
    case Pair(k, v, q) => if !Advances(k) then None else ScanDict(mem, q, hi, Store(mem, s, k, v))
  }

  /** krpc_parse_y. */
  function ParseY(mem: Bytes, y: Benr): KrpcType
    requires Within(mem, y)
  {
    if !y.BString? || y.len != 1 then KtNone
    else if mem[y.start] == LETTER_E then KtError
    else if mem[y.start] == LETTER_Q then KtQuery
    else if mem[y.start] == LETTER_R then KtResponse
    else KtNone
  }

  function QueryNamed(s: Bytes): Option<KrpcQuery> {
    if s == Ascii("ping") then Some(KqPing)
    else if s == Ascii("find_node") then Some(KqFindNode)
    else if s == Ascii("get_peers") then Some(KqGetPeers)
    else if s == Ascii("announce_peer") then Some(KqAnnouncePeer)
    else None
  }

  /** krpc_msg_parse_query: None when it returns -1. */
  function ParseQuery(mem: Bytes, q: Benr): Option<KrpcQuery>
    requires Within(mem, q)
  {
    if !q.BString? then None else QueryNamed(mem[q.start..q.start + q.len])
  }

  predicate SlotsWithin(mem: Bytes, s: Slots) {
    Within(mem, s.y) && Within(mem, s.q)
  }

  /** The end of krpc_msg_parse: the query kind is looked up for queries and responses alike. */
  function Fill(mem: Bytes, s: Slots, msg: Msg): Msg
    requires SlotsWithin(mem, s)
  {
    var kind := ParseY(mem, s.y);
    var query := if kind.KtQuery? || kind.KtResponse? then ParseQuery(mem, s.q) else None;
    Msg(kind, if query.Some? then query.value else msg.query)
  }

  datatype ParseResult = Hangs | Returns(code: int, msg: Msg)

  lemma {:induction false} ScanStaysWithin(mem: Bytes, p: nat, hi: nat, s: Slots)
    requires p <= hi <= |mem| && SlotsWithin(mem, s)
    ensures ScanDict(mem, p, hi, s).Some? ==> SlotsWithin(mem, ScanDict(mem, p, hi, s).value)
    decreases hi - p
  {
    hide DictNext;
    match DictNext(mem, p, hi)
    case DictStop(_, _) =>
    case Pair(k, v, q) => if Advances(k) { ScanStaysWithin(mem, q, hi, Store(mem, s, k, v)); }
  }

  /** krpc_msg_parse on the hi - p bytes at p; -1 is returned on every path. */
  function Parse(mem: Bytes, p: nat, hi: nat, msg: Msg): ParseResult
    requires p <= hi <= |mem|
  {
    var top := Init(mem, p, hi);
    if !top.BDict? then Returns(-1, msg)
    else
      var end := top.ctx.start + top.ctx.len;
      ScanStaysWithin(mem, top.ctx.start, end, EMPTY_SLOTS);
      match ScanDict(mem, top.ctx.start, end, EMPTY_SLOTS)
      case None => Hangs
      case Some(s) => Returns(-1, Fill(mem, s, msg))
  }
}

/**
 * nodes_dat.c as a function on parser states, and, independently, what a nodes.dat file
 * means when all of its bytes are at hand.
 */
module NodesDat {
  import opened ByteString

  const SIZEOF_ZERO: nat := 4
  const SIZEOF_HEADER: nat := 12
  const SIZEOF_ENTRY: nat := 34
  const SIZEOF_ENTRY_V0: nat := 25
  const EINVAL: int := 22
  const ENOMEM: int := 12

  /** struct kad_peer without its list link; ports are the numbers ntohs would give. */
  datatype KadPeer = KadPeer(
    client_id: Bytes, ip_addr: Bytes, tcp_port: nat, udp_port: nat,
    version: Byte, kad_udp_key: Bytes, verified: Byte)

  function Le16(b: Bytes): nat
    requires |b| == 2
  {
    b[0] as int + 0x100 * b[1] as int
  }

  function Le32(b: Bytes): (r: nat)
    requires |b| == 4
    ensures r < U32
    ensures r == 0 <==> b == [0, 0, 0, 0]
  {
    b[0] as int + 0x100 * b[1] as int + 0x1_0000 * b[2] as int + 0x100_0000 * b[3] as int
  }

  /** mk_kad_peer, on the bytes of a struct nd_entry. */
  function MkKadPeer(e: Bytes): KadPeer
    requires |e| >= SIZEOF_ENTRY
  {
    KadPeer(e[0..16], e[16..20], Le16(e[20..22]), Le16(e[22..24]), e[24], e[25..33], e[33])
  }

  /** mk_kad_peer_v0, on the bytes of a struct nd_entry_v0; its type byte is dropped. */
  function MkKadPeerV0(e: Bytes): KadPeer
    requires |e| >= SIZEOF_ENTRY_V0
  {
    KadPeer(e[0..16], e[16..20], Le16(e[20..22]), Le16(e[22..24]), 0, [0, 0, 0, 0, 0, 0, 0, 0], 0)
  }

  /** Record size for a supported version. */
  function RecordSize(version: int): (r: nat)
    ensures SIZEOF_ENTRY_V0 <= r <= SIZEOF_ENTRY
  {
    if version == 0 then SIZEOF_ENTRY_V0 else SIZEOF_ENTRY
  }

  predicate Supported(version: int) { version == 0 || version == 2 }

  function Decode(version: int, e: Bytes): KadPeer
    requires |e| >= RecordSize(version)
  {
    if version == 0 then MkKadPeerV0(e) else MkKadPeer(e)
  }

  // The parser.

  /** struct nd_parse_ctx; head and cur are its fixed-size buffers, peers the data of its list. */
  datatype State = State(
    headPos: nat, headerParsed: bool, head: Bytes, version: int, peers: seq<KadPeer>,
    nrConsumed: nat, nrTotal: nat, error: int, cur: Bytes, curPos: nat)
  {
    predicate Valid() {
      && |head| == SIZEOF_HEADER && headPos <= SIZEOF_HEADER
      && |cur| == SIZEOF_ENTRY && curPos < RecordSize(version)
      && nrConsumed <= nrTotal < U32
      && (!headerParsed ==> headPos < SIZEOF_HEADER && version == 0 && nrTotal == 0 && curPos == 0)
    }
  }

  /** nd_parse_init leaves both buffers as they were. */
  function InitState(head: Bytes, cur: Bytes): State {
    State(0, false, head, 0, [], 0, 0, 0, cur, 0)
  }

  function Min(a: nat, b: nat): nat { if a < b then a else b }

  /** memcpy of data into buf at pos. */
  function Blit(buf: Bytes, pos: nat, data: Bytes): (r: Bytes)
    requires pos + |data| <= |buf|
    ensures |r| == |buf|
    ensures r[..pos + |data|] == buf[..pos] + data
  {
    buf[..pos] + data + buf[pos + |data|..]
  }

  datatype HeaderStep = HeaderStep(st: State, consumed: nat)

  /** The first half of header_parser: the four bytes that tell the layouts apart. */
  function ParseZero(st: State, buf: Bytes): (r: HeaderStep)
    requires st.Valid() && !st.headerParsed
    ensures r.st.Valid() && r.consumed <= |buf|
  {
    if st.headPos >= SIZEOF_ZERO then HeaderStep(st, 0)
    else
      var n := Min(|buf|, SIZEOF_ZERO - st.headPos);
      var s := st.(head := Blit(st.head, st.headPos, buf[..n]), headPos := st.headPos + n);
      if s.headPos >= SIZEOF_ZERO && Le32(s.head[..4]) != 0 then
        HeaderStep(s.(version := 0, nrTotal := Le32(s.head[..4]), headerParsed := true), n)
      else HeaderStep(s, n)
  }

  /** header_parser. */
  function HeaderParser(st: State, buf: Bytes): (r: HeaderStep)
    requires st.Valid() && !st.headerParsed
    ensures r.st.Valid() && r.consumed <= |buf|
  {
    var z := ParseZero(st, buf);
    if z.st.headerParsed || z.st.headPos < SIZEOF_ZERO then z
    else
      var rest := buf[z.consumed..];
      var n := Min(|rest|, SIZEOF_HEADER - z.st.headPos);
      var s := z.st.(head := Blit(z.st.head, z.st.headPos, rest[..n]), headPos := z.st.headPos + n);
      if s.headPos >= SIZEOF_HEADER then
        HeaderStep(s.(version := ToInt32(Le32(s.head[4..8])), nrTotal := Le32(s.head[8..12]), headerParsed := true),
                   z.consumed + n)
      else HeaderStep(s, z.consumed + n)
  }

  datatype LoopEnd = Complete | Partial | NoMemory

  /** How the record loop ends: buffer, position in it, record number, peers made, bytes counted as consumed. */
  datatype Loop = Loop(cur: Bytes, pos: nat, nr: nat, made: seq<KadPeer>, consumed: nat, end: LoopEnd)

  /** The record loop of nd_parse_proc; room is how many allocations still succeed. */
  function Records(cur: Bytes, pos: nat, nr: nat, total: nat, version: int, buf: Bytes, room: nat): (r: Loop)
    requires |cur| == SIZEOF_ENTRY && pos < RecordSize(version) && nr <= total
    ensures |r.cur| == SIZEOF_ENTRY && r.pos <= RecordSize(version) && nr <= r.nr <= total
    ensures r.end.Partial? ==> r.pos < RecordSize(version)
    ensures |r.made| <= room && r.consumed <= |buf|
    ensures |r.made| == r.nr - nr
    ensures r.end.NoMemory? ==> |r.made| == room && r.nr < total
    decreases total - nr
  {
    if nr == total then Loop(cur, pos, nr, [], 0, Complete)
    else
      var goal := RecordSize(version);
      var n := Min(goal - pos, |buf|);
      var cur' := Blit(cur, pos, buf[..n]);
      if pos + n < goal then Loop(cur', pos + n, nr, [], n, Partial)
      else if room == 0 then Loop(cur', pos + n, nr, [], 0, NoMemory)
      else
        var rest := Records(cur', 0, nr + 1, total, version, buf[n..], room - 1);
        rest.(made := [Decode(version, cur')] + rest.made, consumed := n + rest.consumed)
  }

  datatype ProcResult = ProcResult(st: State, ret: int, room: nat)

  /** The part of nd_parse_proc behind the header; hdr bytes of this call went into the header. */
  function ProcRecords(st: State, buf: Bytes, hdr: nat, room: nat): (r: ProcResult)
    requires st.Valid() && st.headerParsed
    ensures r.st.Valid() && r.room <= room
  {
    if !Supported(st.version) then ProcResult(st.(error := -EINVAL), -EINVAL, room)
    else
      var l := Records(st.cur, st.curPos, st.nrConsumed, st.nrTotal, st.version, buf, room);
      var s := st.(cur := l.cur, peers := st.peers + l.made);
      var ret := ToInt32(hdr + l.consumed);
      match l.end
      case Complete => ProcResult(s, ret, room - |l.made|)
      case Partial => ProcResult(s.(curPos := l.pos, nrConsumed := l.nr), ret, room - |l.made|)
      case NoMemory => ProcResult(s.(error := -ENOMEM, curPos := 0, nrConsumed := l.nr), ret, room - |l.made|)
  }

  /** nd_parse_proc. */
  function Proc(st: State, buf: Bytes, room: nat): (r: ProcResult)
    requires st.Valid()
    ensures r.st.Valid() && r.room <= room
  {
    if st.error < 0 then ProcResult(st, st.error, room)
    else if buf == [] then ProcResult(st, 0, room)
    else if st.headerParsed then ProcRecords(st, buf, 0, room)
    else
      var h := HeaderParser(st, buf);
      if !h.st.headerParsed then ProcResult(h.st, h.consumed, room)
      else ProcRecords(h.st, buf[h.consumed..], h.consumed, room)
  }

  /** nd_parse_get_peers takes the list away. */
  function GetPeers(st: State): State { st.(peers := []) }

  // The file, read in one go.

  datatype Head = Head(len: nat, version: int, total: nat)

  function Header(b: Bytes): (r: Option<Head>)
    ensures r.Some? ==> r.value.len <= |b| && r.value.total < U32
  {
    if |b| < 4 then None
    else if Le32(b[..4]) != 0 then Some(Head(4, 0, Le32(b[..4])))
    else if |b| < 12 then None
    else Some(Head(12, ToInt32(Le32(b[4..8])), Le32(b[8..12])))
  }

  /** The first complete records of g bytes, at most m of them. */
  function Chop(d: Bytes, g: nat, m: nat): (r: seq<Bytes>)
    requires g > 0
    ensures forall k :: 0 <= k < |r| ==> |r[k]| == g
    decreases m
  {
    if m == 0 || |d| < g then [] else [d[..g]] + Chop(d[g..], g, m - 1)
  }

  /** The bytes behind them. */
  function Rest(d: Bytes, g: nat, m: nat): Bytes
    requires g > 0
    decreases m
  {
    if m == 0 || |d| < g then d else Rest(d[g..], g, m - 1)
  }

  function DecodeAll(version: int, rs: seq<Bytes>): (r: seq<KadPeer>)
    requires forall k :: 0 <= k < |rs| ==> |rs[k]| >= RecordSize(version)
    ensures |r| == |rs|
  {
    seq(|rs|, i requires 0 <= i < |rs| => Decode(version, rs[i]))
  }

  /** The records of a file of which the bytes b are at hand. */
  function RecordsOf(h: Head, b: Bytes): (r: seq<Bytes>)
    requires h.len <= |b|
    ensures forall k :: 0 <= k < |r| ==> |r[k]| == RecordSize(h.version)
  {
    Chop(b[h.len..], RecordSize(h.version), h.total)
  }

  /** The peers of a file of which the bytes b are at hand. */
  function PeersOf(b: Bytes): seq<KadPeer> {
    match Header(b)
    case None => []
    case Some(h) => if Supported(h.version) then DecodeAll(h.version, RecordsOf(h, b)) else []
  }

  /** Its declared size in bytes. */
  function FileSize(h: Head): nat { h.len + h.total * RecordSize(h.version) }

  /** All declared records have arrived. */
  predicate IsComplete(b: Bytes) {
    Header(b).Some? && Supported(Header(b).value.version) && |b| >= FileSize(Header(b).value)
  }
}

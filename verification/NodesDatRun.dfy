/**
 * Whole runs of the incremental parser: chunks fed in any division, lists drained at any time.
 */
module NodesDatRun {
  import opened ByteString
  import opened NodesDat

  datatype Op = Feed(chunk: Bytes) | Drain

  /**
   * A client of the parser: the parser's state, allocations left, the lists taken so far,
   * the bytes fed and the sum of the non-negative return values.
   */
  datatype Run = Run(st: State, room: nat, drained: seq<KadPeer>, fed: Bytes, returned: int)
  {
    /** Every peer made so far, in order: those taken away, then those still held. */
    function All(): seq<KadPeer> { drained + st.peers }
  }

  function Step(r: Run, op: Op): (r': Run)
    requires r.st.Valid()
    ensures r'.st.Valid()
  {
    match op
    case Feed(c) =>
      var p := Proc(r.st, c, r.room);
      Run(p.st, p.room, r.drained, r.fed + c, r.returned + if p.ret >= 0 then p.ret else 0)
    case Drain => Run(GetPeers(r.st), r.room, r.drained + r.st.peers, r.fed, r.returned)
  }

  function Steps(r: Run, ops: seq<Op>): (r': Run)
    requires r.st.Valid()
    ensures r'.st.Valid()
    decreases |ops|
  {
    if ops == [] then r else Steps(Step(r, ops[0]), ops[1..])
  }

  function Start(head: Bytes, cur: Bytes, room: nat): (r: Run)
    requires |head| == SIZEOF_HEADER && |cur| == SIZEOF_ENTRY
    ensures r.st.Valid()
  {
    Run(InitState(head, cur), room, [], [], 0)
  }

  /** The bytes of all chunks, in order. */
  function Fed(ops: seq<Op>): Bytes {
    if ops == [] then []
    else (match ops[0] case Feed(c) => c case Drain => []) + Fed(ops[1..])
  }

  /** The declared record count is positive and has been reached. */
  predicate IsFull(b: Bytes) {
    IsComplete(b) && Header(b).value.total > 0
  }

  /** Nothing is fed behind the call that completes the file. */
  predicate Feedable(fed: Bytes, ops: seq<Op>)
    decreases |ops|
  {
    ops == [] ||
    match ops[0]
    case Feed(c) => (c == [] || !IsFull(fed)) && Feedable(fed + c, ops[1..])
    case Drain => Feedable(fed, ops[1..])
  }

  /** The count of every call fits the int that is returned. */
  predicate SmallChunks(ops: seq<Op>) {
    forall k :: 0 <= k < |ops| && ops[k].Feed? ==> |ops[k].chunk| <= INT_MAX
  }

  // Chopping a stream into records, bit by bit.

  lemma OneMore(k: nat, g: nat)
    ensures (k + 1) * g == k * g + g
  {
  }

  lemma {:induction false} ChopCounts(d: Bytes, g: nat, m: nat)
    requires g > 0
    ensures |Chop(d, g, m)| <= m && |d| == |Chop(d, g, m)| * g + |Rest(d, g, m)|
    ensures |Chop(d, g, m)| < m ==> |Rest(d, g, m)| < g
    ensures |Rest(d, g, m)| <= |d| && Rest(d, g, m) == d[|d| - |Rest(d, g, m)|..]
    decreases m
  {
    if m > 0 && |d| >= g {
      ChopCounts(d[g..], g, m - 1);
      OneMore(|Chop(d[g..], g, m - 1)|, g);
    }
  }

  lemma {:induction false} Room(j: nat, g: nat)
    requires j > 0
    ensures j * g >= g
  {
    if j > 1 { Room(j - 1, g); }
  }

  lemma FullIff(k: nat, m: nat, g: nat, len: nat, rest: nat)
    requires k <= m && len == k * g + rest && (k < m ==> rest < g)
    ensures k == m <==> len >= m * g
  {
    if k < m {
      var j := m - k;
      Room(j, g);
      assert (k + j) * g == k * g + j * g;
    }
  }

  lemma ChopFullIff(d: Bytes, g: nat, m: nat)
    requires g > 0
    ensures |Chop(d, g, m)| == m <==> |d| >= m * g
  {
    hide Chop, Rest;
    ChopCounts(d, g, m);
    FullIff(|Chop(d, g, m)|, m, g, |d|, |Rest(d, g, m)|);
  }

  /** Chopping more bytes continues where chopping fewer stopped. */
  lemma {:induction false} ChopAppend(d: Bytes, e: Bytes, g: nat, m: nat)
    requires g > 0
    ensures |Chop(d, g, m)| <= m
    ensures var k := m - |Chop(d, g, m)|;
            && Chop(d + e, g, m) == Chop(d, g, m) + Chop(Rest(d, g, m) + e, g, k)
            && Rest(d + e, g, m) == Rest(Rest(d, g, m) + e, g, k)
    decreases m
  {
    if m > 0 && |d| >= g {
      ChopAppend(d[g..], e, g, m - 1);
      assert (d + e)[..g] == d[..g] && (d + e)[g..] == d[g..] + e;
    }
  }

  lemma DecodeAllAppend(v: int, a: seq<Bytes>, b: seq<Bytes>)
    requires forall k :: 0 <= k < |a| ==> |a[k]| >= RecordSize(v)
    requires forall k :: 0 <= k < |b| ==> |b[k]| >= RecordSize(v)
    ensures DecodeAll(v, a + b) == DecodeAll(v, a) + DecodeAll(v, b)
  {
    hide Decode;
    var l, r := DecodeAll(v, a + b), DecodeAll(v, a) + DecodeAll(v, b);
    assert |l| == |r|;
    forall i | 0 <= i < |l|
      ensures l[i] == r[i]
    {
      assert (a + b)[i] == if i < |a| then a[i] else b[i - |a|];
    }
  }

  /** A record is decoded from its own bytes, whatever else the buffer holds. */
  lemma DecodePrefix(v: int, cur: Bytes)
    requires |cur| >= RecordSize(v)
    ensures Decode(v, cur) == Decode(v, cur[..RecordSize(v)])
  {
    var e := cur[..RecordSize(v)];
    assert e[0..16] == cur[0..16] && e[16..20] == cur[16..20];
    assert e[20..22] == cur[20..22] && e[22..24] == cur[22..24];
    if v != 0 { assert e[25..33] == cur[25..33]; }
  }

  /** The loop's result in terms of chopping d, the partial record and the new bytes together. */
  predicate LoopMeans(l: Loop, pos: nat, nr: nat, total: nat, v: int, d: Bytes)
    requires nr <= total && pos <= |d|
  {
    var g, m := RecordSize(v), total - nr;
    && l.made == DecodeAll(v, Chop(d, g, m))
    && (l.end.Complete? <==> |Chop(d, g, m)| == m)
    && (l.end.Partial? ==>
         && l.nr == nr + |Chop(d, g, m)|
         && l.pos == |Rest(d, g, m)| <= |l.cur| && l.cur[..l.pos] == Rest(d, g, m)
         && l.consumed == |d| - pos)
    && (l.end.Complete? ==> l.consumed == if m == 0 then 0 else m * g - pos)
  }

  /** Filling up the record under construction. */
  lemma FillRecord(cur: Bytes, pos: nat, v: int, buf: Bytes)
    requires |cur| == SIZEOF_ENTRY && pos < RecordSize(v)
    ensures var g, d := RecordSize(v), cur[..pos] + buf;
            var n := Min(g - pos, |buf|);
            var cur' := Blit(cur, pos, buf[..n]);
            if |d| < g then cur'[..pos + n] == d && n == |buf|
            else pos + n == g && cur'[..g] == d[..g] && d[g..] == buf[n..] && Decode(v, cur') == Decode(v, d[..g])
  {
    hide Decode;
    var g, d := RecordSize(v), cur[..pos] + buf;
    var n := Min(g - pos, |buf|);
    var cur' := Blit(cur, pos, buf[..n]);
    if |d| < g {
      assert buf[..n] == buf;
    } else {
      assert d[..g] == cur[..pos] + buf[..n];
      DecodePrefix(v, cur');
    }
  }

  lemma DecodeCons(v: int, e: Bytes, rs: seq<Bytes>)
    requires |e| >= RecordSize(v) && forall k :: 0 <= k < |rs| ==> |rs[k]| >= RecordSize(v)
    ensures DecodeAll(v, [e] + rs) == [Decode(v, e)] + DecodeAll(v, rs)
  {
    hide Decode;
  }

  /** Putting a decoded record before what the rest of the loop does. */
  lemma ConsLoop(rest: Loop, pos: nat, nr: nat, total: nat, v: int, d: Bytes)
    requires nr < total && pos < RecordSize(v) <= |d|
    requires rest.end != NoMemory && LoopMeans(rest, 0, nr + 1, total, v, d[RecordSize(v)..])
    ensures var g := RecordSize(v);
            LoopMeans(rest.(made := [Decode(v, d[..g])] + rest.made, consumed := g - pos + rest.consumed),
                      pos, nr, total, v, d)
  {
    hide Decode, DecodeAll, RecordSize;
    var g, m := RecordSize(v), total - nr;
    DecodeCons(v, d[..g], Chop(d[g..], g, m - 1));
    assert m * g == (m - 1) * g + g;
  }

  /** One turn of the record loop. */
  lemma RecordsOnce(cur: Bytes, pos: nat, nr: nat, total: nat, v: int, buf: Bytes, room: nat)
    requires |cur| == SIZEOF_ENTRY && pos < RecordSize(v) && nr <= total
    ensures Records(cur, pos, nr, total, v, buf, room) ==
            if nr == total then Loop(cur, pos, nr, [], 0, Complete)
            else
              var n := Min(RecordSize(v) - pos, |buf|);
              var cur' := Blit(cur, pos, buf[..n]);
              if pos + n < RecordSize(v) then Loop(cur', pos + n, nr, [], n, Partial)
              else if room == 0 then Loop(cur', pos + n, nr, [], 0, NoMemory)
              else
                var rest := Records(cur', 0, nr + 1, total, v, buf[n..], room - 1);
                rest.(made := [Decode(v, cur')] + rest.made, consumed := n + rest.consumed)
  {
    hide Decode, Blit, RecordSize;
  }

  lemma {:induction false} RecordsMeaning(cur: Bytes, pos: nat, nr: nat, total: nat, v: int, buf: Bytes, room: nat)
    requires |cur| == SIZEOF_ENTRY && pos < RecordSize(v) && nr <= total
    ensures var l := Records(cur, pos, nr, total, v, buf, room);
            l.end != NoMemory ==> LoopMeans(l, pos, nr, total, v, cur[..pos] + buf)
    decreases total - nr
  {
    hide Records, Decode, DecodeAll, Blit, RecordSize, LoopMeans;
    var g := RecordSize(v);
    var d := cur[..pos] + buf;
    RecordsOnce(cur, pos, nr, total, v, buf, room);
    FillRecord(cur, pos, v, buf);
    var n := Min(g - pos, |buf|);
    var cur' := Blit(cur, pos, buf[..n]);
    if nr == total || |d| < g {
      LoopStops(if nr == total then cur else cur', pos, nr, total, v, d);
    } else if room > 0 {
      RecordsMeaning(cur', 0, nr + 1, total, v, buf[n..], room - 1);
      assert cur'[..0] + buf[n..] == buf[n..];
      var rest := Records(cur', 0, nr + 1, total, v, buf[n..], room - 1);
      if rest.end != NoMemory { ConsLoop(rest, pos, nr, total, v, d); }
    }
  }

  lemma LoopStops(cur: Bytes, pos: nat, nr: nat, total: nat, v: int, d: Bytes)
    requires nr <= total && pos <= |d|
    ensures nr == total ==> LoopMeans(Loop(cur, pos, nr, [], 0, Complete), pos, nr, total, v, d)
    ensures nr < total && |d| < RecordSize(v) && |d| <= |cur| && cur[..|d|] == d ==>
              LoopMeans(Loop(cur, |d|, nr, [], |d| - pos, Partial), pos, nr, total, v, d)
  {
    hide Decode;
    DecodeNothing(v);
  }

  lemma DecodeNothing(v: int)
    ensures DecodeAll(v, []) == []
  {
  }

  // The header.

  /** The header is incomplete and the bytes so far sit in its buffer. */
  predicate AwaitsHeader(st: State, fed: Bytes) {
    && !st.headerParsed && st.error == 0 && st.peers == [] && st.nrConsumed == 0
    && |st.head| == SIZEOF_HEADER && st.headPos == |fed| <= SIZEOF_HEADER && st.head[..|fed|] == fed
    && Header(fed).None?
  }

  lemma ParseZeroMeaning(st: State, fed: Bytes, buf: Bytes)
    requires st.Valid() && AwaitsHeader(st, fed) && |fed| < 4
    ensures var z, b := ParseZero(st, buf), fed + buf;
            var n := Min(|b|, 4);
            && z.consumed == n - |fed| && z.st.headPos == n && z.st.head[..n] == b[..n]
            && z.st == st.(head := z.st.head, headPos := n, headerParsed := z.st.headerParsed, nrTotal := z.st.nrTotal)
            && (z.st.headerParsed <==> |b| >= 4 && Le32(b[..4]) != 0)
            && z.st.nrTotal == (if z.st.headerParsed then Le32(b[..4]) else 0)
  {
    hide Le32;
    var z, b := ParseZero(st, buf), fed + buf;
    var n := Min(|buf|, 4 - |fed|);
    assert b[..|fed| + n] == fed + buf[..n];
  }

  lemma ZeroKeeps(st: State, buf: Bytes)
    requires st.Valid() && !st.headerParsed
    ensures var s := ParseZero(st, buf).st;
            s == st.(head := s.head, headPos := s.headPos, version := s.version, nrTotal := s.nrTotal,
                     headerParsed := s.headerParsed)
  {
    hide Le32, Blit;
  }

  /** The header parser leaves everything else alone. */
  lemma HeaderKeeps(st: State, buf: Bytes)
    requires st.Valid() && !st.headerParsed
    ensures var s := HeaderParser(st, buf).st;
            s == st.(head := s.head, headPos := s.headPos, version := s.version, nrTotal := s.nrTotal,
                     headerParsed := s.headerParsed)
  {
    hide Le32, Blit, ToInt32, ParseZero;
    ZeroKeeps(st, buf);
  }

  /** Where the first half leaves the header, in terms of all bytes so far. */
  lemma ZeroPart(st: State, fed: Bytes, buf: Bytes)
    requires st.Valid() && AwaitsHeader(st, fed)
    ensures var z, b := ParseZero(st, buf), fed + buf;
            var p := z.st.headPos;
            && |fed| <= p <= |b| && z.consumed == p - |fed| && z.st.head[..p] == b[..p] && b[p..] == buf[z.consumed..]
            && (z.st.headerParsed <==> |b| >= 4 && Le32(b[..4]) != 0)
            && (z.st.headerParsed ==> p == 4 && z.st.version == 0 && z.st.nrTotal == Le32(b[..4]))
            && (|b| < 4 ==> p == |b|) && (|b| >= 4 ==> p >= 4) && p < 12
  {
    hide Le32, ParseZero;
    if |fed| < 4 {
      ParseZeroMeaning(st, fed, buf);
    } else {
      SkipZero(st, buf);
      assert fed[..4] == (fed + buf)[..4];
    }
  }

  lemma {:induction false} HeaderMeaning(st: State, fed: Bytes, buf: Bytes)
    requires st.Valid() && AwaitsHeader(st, fed)
    ensures var r, b := HeaderParser(st, buf), fed + buf;
            if Header(b).None? then r.consumed == |buf| && AwaitsHeader(r.st, b)
            else
              var h := Header(b).value;
              && |fed| <= h.len && r.consumed == h.len - |fed|
              && r.st.headerParsed && r.st.version == h.version && r.st.nrTotal == h.total
              && r.st.error == 0 && r.st.peers == [] && r.st.nrConsumed == 0 && r.st.curPos == 0
              && r.st.headPos == h.len
  {
    hide Le32, ToInt32, ParseZero, Blit;
    var b := fed + buf;
    HeaderKeeps(st, buf);
    ZeroPart(st, fed, buf);
    var z := ParseZero(st, buf);
    if |b| >= 4 && Le32(b[..4]) == 0 { SecondHalf(z.st, b, buf[z.consumed..]); }
  }

  lemma SkipZero(st: State, buf: Bytes)
    requires st.Valid() && !st.headerParsed && st.headPos >= 4
    ensures ParseZero(st, buf) == HeaderStep(st, 0)
  {
  }

  /** Copying the rest of a twelve-byte header. */
  lemma SecondHalf(st: State, b: Bytes, rest: Bytes)
    requires |st.head| == 12 && 4 <= st.headPos <= |b| && st.headPos < 12
    requires st.head[..st.headPos] == b[..st.headPos] && rest == b[st.headPos..]
    ensures var n := Min(|rest|, 12 - st.headPos);
            var head := Blit(st.head, st.headPos, rest[..n]);
            && st.headPos + n == Min(|b|, 12)
            && head[..st.headPos + n] == b[..st.headPos + n]
            && (|b| >= 12 ==> head[4..8] == b[4..8] && head[8..12] == b[8..12])
  {
    var n := Min(|rest|, 12 - st.headPos);
    var q := st.headPos + n;
    var head := Blit(st.head, st.headPos, rest[..n]);
    assert b[..q] == b[..st.headPos] + rest[..n];
    if |b| >= 12 {
      assert head[..12][4..8] == head[4..8] && b[..12][4..8] == b[4..8];
      assert head[..12][8..12] == head[8..12] && b[..12][8..12] == b[8..12];
    }
  }

  /** A header, once there, does not change with more bytes. */
  lemma HeaderStable(b: Bytes, c: Bytes)
    requires Header(b).Some?
    ensures Header(b + c) == Header(b)
  {
    hide Le32, ToInt32;
    assert (b + c)[..4] == b[..4];
    if Le32(b[..4]) == 0 {
      assert (b + c)[4..8] == b[4..8] && (b + c)[8..12] == b[8..12];
    }
  }

  // The simulation.

  /** The parser stands inside a record: counters and partial record are those of the payload so far. */
  predicate InRecord(st: State, h: Head, payload: Bytes) {
    var g := RecordSize(h.version);
    var left := Rest(payload, g, h.total);
    && st.nrConsumed == |Chop(payload, g, h.total)|
    && st.curPos == |left| <= |st.cur| && st.cur[..st.curPos] == left
  }

  predicate Describes(st: State, h: Head) {
    && st.Valid() && st.headerParsed && st.error == 0
    && st.version == h.version && Supported(h.version) && st.nrTotal == h.total && st.headPos == h.len
  }

  lemma SizeLeft(total: nat, k: nat, g: nat, p: nat, left: nat)
    requires k <= total && p == k * g + left
    ensures (total - k) * g - left == total * g - p
  {
    assert total * g == k * g + (total - k) * g;
  }

  /** One pass of the record loop over new payload bytes. */
  lemma RecordsStep(st: State, h: Head, payload: Bytes, buf: Bytes, hdr: nat, room: nat)
    requires Describes(st, h) && InRecord(st, h, payload)
    ensures var p, g := ProcRecords(st, buf, hdr, room), RecordSize(h.version);
            var all := payload + buf;
            p.st.error == -ENOMEM || (
              && Describes(p.st, h)
              && |Chop(payload, g, h.total)| <= |Chop(all, g, h.total)|
              && p.st.peers == st.peers + DecodeAll(h.version, Chop(all, g, h.total)[|Chop(payload, g, h.total)|..])
              && Chop(all, g, h.total)[..|Chop(payload, g, h.total)|] == Chop(payload, g, h.total)
              && (|Chop(all, g, h.total)| == h.total ==>
                   p.st.nrConsumed == st.nrConsumed && p.st.curPos == st.curPos)
              && if |Chop(all, g, h.total)| < h.total then InRecord(p.st, h, all) && p.ret == ToInt32(hdr + |buf|)
                 else if |Chop(payload, g, h.total)| == h.total then p.ret == ToInt32(hdr)
                 else h.total * g >= |payload| && p.ret == ToInt32(hdr + (h.total * g - |payload|)))
  {
    hide Records, Decode, DecodeAll, Blit, RecordSize, ToInt32, Chop, Rest;
    var g := RecordSize(h.version);
    var k := |Chop(payload, g, h.total)|;
    var left := Rest(payload, g, h.total);
    ChopCounts(payload, g, h.total);
    ChopAppend(payload, buf, g, h.total);
    RecordsMeaning(st.cur, st.curPos, st.nrConsumed, st.nrTotal, st.version, buf, room);
    SizeLeft(h.total, k, g, |payload|, |left|);
    var more := Chop(left + buf, g, h.total - k);
    assert (Chop(payload, g, h.total) + more)[k..] == more;
  }

  /** The parser's counters before the record loop went on behind this payload. */
  predicate StoodAt(nr: nat, pos: nat, h: Head, payload: Bytes) {
    var g := RecordSize(h.version);
    && (|Chop(payload, g, h.total)| < h.total || payload == [])
    && nr == |Chop(payload, g, h.total)| && pos == |Rest(payload, g, h.total)|
  }

  /** The counters of a complete parse are stale: those of the call that completed it, when it began. */
  ghost predicate Stale(nr: nat, pos: nat, h: Head, body: Bytes) {
    exists m :: 0 <= m <= |body| && StoodAt(nr, pos, h, body[..m])
  }

  /**
   * What holds between calls, in terms of the bytes fed so far alone: every peer of every record
   * that has arrived, in order, wherever the chunk and drain boundaries were.
   */
  ghost predicate Inv(r: Run) {
    && r.st.Valid()
    && match Header(r.fed)
       case None => AwaitsHeader(r.st, r.fed) && r.drained == []
       case Some(h) =>
         if !Supported(h.version) then
           && r.st.headerParsed && r.st.version == h.version && r.st.nrTotal == h.total
           && r.st.error == -EINVAL && r.All() == []
         else
           && Describes(r.st, h) && r.All() == PeersOf(r.fed)
           && if IsComplete(r.fed) then Stale(r.st.nrConsumed, r.st.curPos, h, r.fed[h.len..])
              else InRecord(r.st, h, r.fed[h.len..])
  }

  /** The returned counts add up to the bytes fed, or to the file's size once it is complete. */
  predicate Counted(fed: Bytes, returned: int) {
    if IsComplete(fed) then returned == FileSize(Header(fed).value) else returned == |fed|
  }

  lemma CompleteIffChopped(b: Bytes, h: Head)
    requires Header(b) == Some(h) && Supported(h.version)
    ensures IsComplete(b) <==> |Chop(b[h.len..], RecordSize(h.version), h.total)| == h.total
  {
    hide Header;
    ChopFullIff(b[h.len..], RecordSize(h.version), h.total);
  }

  lemma SmallCount(n: nat)
    requires n <= INT_MAX
    ensures ToInt32(n) == n
  {
  }

  lemma ChoppedSize(d: Bytes, g: nat, m: nat)
    requires g > 0 && |Chop(d, g, m)| == m
    ensures m * g <= |d|
  {
    hide Chop;
    ChopFullIff(d, g, m);
  }

  lemma AllGrows(v: int, drained: seq<KadPeer>, peers: seq<KadPeer>, before: seq<Bytes>, all: seq<Bytes>)
    requires |before| <= |all| && all[..|before|] == before
    requires forall k :: 0 <= k < |all| ==> |all[k]| >= RecordSize(v)
    requires forall k :: 0 <= k < |before| ==> |before[k]| >= RecordSize(v)
    requires drained + peers == DecodeAll(v, before)
    ensures drained + (peers + DecodeAll(v, all[|before|..])) == DecodeAll(v, all)
  {
    hide Decode;
    assert all == before + all[|before|..];
    DecodeAllAppend(v, before, all[|before|..]);
  }

  /** Bytes behind the header, in a state that describes the payload so far. */
  lemma FeedRecords(r: Run, st: State, h: Head, payload: Bytes, buf: Bytes, hdr: nat, c: Bytes)
    requires Header(r.fed + c) == Some(h) && h.len <= |r.fed + c| && (r.fed + c)[h.len..] == payload + buf
    requires Supported(h.version) && Describes(st, h) && InRecord(st, h, payload)
    requires |Chop(payload, RecordSize(h.version), h.total)| < h.total || payload == []
    requires r.drained + st.peers == DecodeAll(h.version, Chop(payload, RecordSize(h.version), h.total))
    requires r.st.Valid() && Proc(r.st, c, r.room) == ProcRecords(st, buf, hdr, r.room)
    ensures var r' := Step(r, Feed(c));
            r'.st.error == -ENOMEM || Inv(r')
  {
    hide ProcRecords, Proc, Decode, DecodeAll, Chop, Rest, RecordSize, ToInt32, Header, Supported, Inv, InRecord;
    hide Describes, PeersOf, RecordsOf, IsComplete, Stale;
    var g := RecordSize(h.version);
    var all := payload + buf;
    var r' := Step(r, Feed(c));
    RecordsStep(st, h, payload, buf, hdr, r.room);
    if r'.st.error != -ENOMEM {
      AllGrows(h.version, r.drained, st.peers, Chop(payload, g, h.total), Chop(all, g, h.total));
      CompleteIffChopped(r.fed + c, h);
      ChopCounts(all, g, h.total);
      CountersGoStale(st, h, payload, buf);
      InvFromParts(r', h);
    }
  }

  /** The count that call returns, if it fits. */
  lemma CountRecords(r: Run, st: State, h: Head, payload: Bytes, buf: Bytes, hdr: nat, c: Bytes)
    requires Header(r.fed + c) == Some(h) && h.len <= |r.fed + c| && (r.fed + c)[h.len..] == payload + buf
    requires Supported(h.version) && Describes(st, h) && InRecord(st, h, payload)
    requires |Chop(payload, RecordSize(h.version), h.total)| < h.total || h.total == 0
    requires |c| == hdr + |buf| <= INT_MAX && r.returned == |r.fed| && |r.fed| + hdr == h.len + |payload|
    requires h.total == 0 ==> payload == []
    requires r.st.Valid() && Proc(r.st, c, r.room) == ProcRecords(st, buf, hdr, r.room)
    ensures var r' := Step(r, Feed(c));
            r'.st.error == -ENOMEM || Counted(r'.fed, r'.returned)
  {
    hide ProcRecords, Proc, Decode, DecodeAll, Chop, Rest, RecordSize, ToInt32, Header, Supported, InRecord;
    hide Describes, IsComplete;
    var g := RecordSize(h.version);
    var all := payload + buf;
    var r' := Step(r, Feed(c));
    RecordsStep(st, h, payload, buf, hdr, r.room);
    if r'.st.error != -ENOMEM {
      CompleteIffChopped(r.fed + c, h);
      SmallCount(hdr + |buf|);
      ChopCounts(all, g, h.total);
      if |Chop(all, g, h.total)| == h.total {
        ChopCounts(payload, g, h.total);
        ChoppedSize(all, g, h.total);
        SmallCount(hdr);
        if h.total > 0 { SmallCount(hdr + (h.total * g - |payload|)); }
      }
    }
  }

  lemma CountersGoStale(st: State, h: Head, payload: Bytes, buf: Bytes)
    requires InRecord(st, h, payload)
    requires |Chop(payload, RecordSize(h.version), h.total)| < h.total || payload == []
    ensures Stale(st.nrConsumed, st.curPos, h, payload + buf)
  {
    hide Chop, Rest;
    assert (payload + buf)[..|payload|] == payload;
    assert StoodAt(st.nrConsumed, st.curPos, h, (payload + buf)[..|payload|]);
  }

  lemma StaleBelow(nr: nat, pos: nat, h: Head, body: Bytes)
    requires Stale(nr, pos, h, body)
    ensures h.total > 0 ==> nr < h.total
    ensures h.total == 0 ==> nr == 0
  {
  }

  /** More bytes do not make them less stale. */
  lemma StaysStale(nr: nat, pos: nat, h: Head, body: Bytes, more: Bytes)
    requires Stale(nr, pos, h, body)
    ensures Stale(nr, pos, h, body + more)
  {
    var m :| 0 <= m <= |body| && StoodAt(nr, pos, h, body[..m]);
    assert (body + more)[..m] == body[..m];
  }

  lemma InvFromParts(r: Run, h: Head)
    requires Header(r.fed) == Some(h) && Describes(r.st, h) && h.len <= |r.fed|
    requires r.All() == DecodeAll(h.version, Chop(r.fed[h.len..], RecordSize(h.version), h.total))
    requires if IsComplete(r.fed) then Stale(r.st.nrConsumed, r.st.curPos, h, r.fed[h.len..])
             else InRecord(r.st, h, r.fed[h.len..])
    ensures Inv(r)
  {
    hide Header, IsComplete, InRecord, DecodeAll, Chop, RecordSize, Stale;
  }

  // Running out of memory.

  lemma DecodeTake(v: int, rs: seq<Bytes>, n: nat)
    requires n <= |rs| && forall k :: 0 <= k < |rs| ==> |rs[k]| >= RecordSize(v)
    ensures DecodeAll(v, rs[..n]) == DecodeAll(v, rs)[..n]
  {
    hide Decode;
  }

  /** A failed allocation: one record more has arrived than there was room for. */
  lemma {:induction false} RecordsNoMemory(cur: Bytes, pos: nat, nr: nat, total: nat, v: int, buf: Bytes, room: nat)
    requires |cur| == SIZEOF_ENTRY && pos < RecordSize(v) && nr <= total
    requires Records(cur, pos, nr, total, v, buf, room).end.NoMemory?
    ensures var l, rs := Records(cur, pos, nr, total, v, buf, room),
                         Chop(cur[..pos] + buf, RecordSize(v), total - nr);
            room < |rs| && l.made == DecodeAll(v, rs[..room])
    decreases total - nr
  {
    hide Records, Decode, DecodeAll, Blit, RecordSize;
    var g := RecordSize(v);
    var d := cur[..pos] + buf;
    RecordsOnce(cur, pos, nr, total, v, buf, room);
    FillRecord(cur, pos, v, buf);
    var n := Min(g - pos, |buf|);
    var cur' := Blit(cur, pos, buf[..n]);
    var more := Chop(d[g..], g, total - nr - 1);
    if room == 0 {
      DecodeNothing(v);
    } else {
      RecordsNoMemory(cur', 0, nr + 1, total, v, buf[n..], room - 1);
      assert cur'[..0] + buf[n..] == buf[n..];
      DecodeCons(v, d[..g], more[..room - 1]);
      assert ([d[..g]] + more)[..room] == [d[..g]] + more[..room - 1];
    }
  }

  /** The first n contacts of the file whose bytes so far are b. */
  predicate DeliveredFirst(r: Run, n: nat) {
    n < |PeersOf(r.fed)| && r.All() == PeersOf(r.fed)[..n]
  }

  lemma FailedRecords(r: Run, st: State, h: Head, payload: Bytes, buf: Bytes, hdr: nat, c: Bytes)
    requires Header(r.fed + c) == Some(h) && h.len <= |r.fed + c| && (r.fed + c)[h.len..] == payload + buf
    requires Describes(st, h) && InRecord(st, h, payload)
    requires r.drained + st.peers == DecodeAll(h.version, Chop(payload, RecordSize(h.version), h.total))
    requires r.st.Valid() && Proc(r.st, c, r.room) == ProcRecords(st, buf, hdr, r.room)
    ensures var r' := Step(r, Feed(c));
            r'.st.error == -ENOMEM ==> DeliveredFirst(r', |r.drained + st.peers| + r.room)
  {
    hide Records, Proc, Header, Decode, DecodeAll, Chop, Rest, RecordSize, ToInt32;
    var g := RecordSize(h.version);
    var l := Records(st.cur, st.curPos, st.nrConsumed, st.nrTotal, st.version, buf, r.room);
    if l.end.NoMemory? {
      var before, all := Chop(payload, g, h.total), Chop(payload + buf, g, h.total);
      ChopCounts(payload, g, h.total);
      ChopAppend(payload, buf, g, h.total);
      RecordsNoMemory(st.cur, st.curPos, st.nrConsumed, st.nrTotal, st.version, buf, r.room);
      var more := Chop(Rest(payload, g, h.total) + buf, g, h.total - |before|);
      assert all[..|before| + r.room] == before + more[..r.room];
      DecodeAllAppend(h.version, before, more[..r.room]);
      DecodeTake(h.version, all, |before| + r.room);
      assert r.drained + (st.peers + l.made) == r.drained + st.peers + l.made;
    }
  }
}

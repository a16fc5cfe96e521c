/**
 * nodes.dat in plain byte arithmetic: offsets, record sizes, version numbers and error codes as they
 * stand, and the parser measured against them.
 */
module NodesDatPlain {
  import opened ByteString
  import opened NodesDat
  import opened NodesDatRun
  import opened NodesDatTheorems

  /** Little-endian numbers at an offset. */
  function Half(b: Bytes, k: nat): nat
    requires k + 2 <= |b|
  {
    b[k] as int + 256 * b[k + 1] as int
  }

  function Word(b: Bytes, k: nat): nat
    requires k + 4 <= |b|
  {
    b[k] as int + 256 * b[k + 1] as int + 65536 * b[k + 2] as int + 16777216 * b[k + 3] as int
  }

  /** Where the records begin, how long each is, and how many the file declares. */
  datatype Layout = Unknown | Refused | Laid(first: nat, size: nat, count: nat)

  function LayoutOf(b: Bytes): (r: Layout)
    ensures r.Laid? ==> r.first <= |b| && (r.size == 25 || r.size == 34)
  {
    if |b| < 4 then Unknown
    else if Word(b, 0) != 0 then Laid(4, 25, Word(b, 0))
    else if |b| < 12 then Unknown
    else if Word(b, 4) == 0 then Laid(12, 25, Word(b, 8))
    else if Word(b, 4) == 2 then Laid(12, 34, Word(b, 8))
    else Refused
  }

  /** The contact stored at offset o. */
  function ContactAt(b: Bytes, o: nat, size: nat): KadPeer
    requires (size == 25 || size == 34) && o + size <= |b|
  {
    if size == 25 then
      KadPeer(b[o..o + 16], b[o + 16..o + 20], Half(b, o + 20), Half(b, o + 22), 0, [0, 0, 0, 0, 0, 0, 0, 0], 0)
    else
      KadPeer(b[o..o + 16], b[o + 16..o + 20], Half(b, o + 20), Half(b, o + 22),
              b[o + 24], b[o + 25..o + 33], b[o + 33])
  }

  lemma WordIsLe32(b: Bytes, k: nat)
    requires k + 4 <= |b|
    ensures Le32(b[k..k + 4]) == Word(b, k)
  {
  }

  /** The header against the plain reading. */
  lemma {:induction false} HeaderPlain(b: Bytes)
    ensures Header(b) ==
            if |b| < 4 then None
            else if Word(b, 0) != 0 then Some(Head(4, 0, Word(b, 0)))
            else if |b| < 12 then None
            else
              var v := Word(b, 4);
              Some(Head(12, if v < 2147483648 then v else v - 4294967296, Word(b, 8)))
  {
    hide Le32, Word;
    if |b| >= 4 {
      WordIsLe32(b, 0);
      assert b[..4] == b[0..4];
    }
    if |b| >= 12 {
      WordIsLe32(b, 4);
      WordIsLe32(b, 8);
      WordBound(b, 4);
    }
  }

  lemma WordBound(b: Bytes, k: nat)
    requires k + 4 <= |b|
    ensures Word(b, k) < 4294967296
  {
  }

  lemma LayoutIsHeader(b: Bytes)
    ensures match LayoutOf(b)
            case Unknown => Header(b) == None
            case Refused => Header(b).Some? && !Supported(Header(b).value.version)
            case Laid(first, size, count) =>
              && Header(b).Some? && Supported(Header(b).value.version)
              && Header(b).value.len == first && Header(b).value.total == count
              && RecordSize(Header(b).value.version) == size
  {
    hide Word, Header;
    HeaderPlain(b);
    if |b| >= 12 { WordBound(b, 4); }
  }

  // Contacts.

  /** Bytes in front of the i-th of equally long records. */
  function Before(i: nat, g: nat): nat { if g == 25 then 25 * i else 34 * i }

  lemma {:induction false} ChopAt(d: Bytes, g: nat, m: nat, i: nat)
    requires (g == 25 || g == 34) && i < |Chop(d, g, m)|
    ensures var o := Before(i, g); o + g <= |d| && Chop(d, g, m)[i] == d[o..o + g]
    decreases i
  {
    if i > 0 {
      ChopAt(d[g..], g, m - 1, i - 1);
      var o := Before(i - 1, g);
      ShiftedPiece(d, g, o, o + g);
    }
  }

  lemma ChopSize(d: Bytes, g: nat, m: nat)
    requires g == 25 || g == 34
    ensures |Chop(d, g, m)| == Min(m, |d| / g)
  {
    hide Chop, Rest;
    ChopCounts(d, g, m);
  }

  lemma DecodeAt(b: Bytes, o: nat, v: int)
    requires Supported(v) && o + RecordSize(v) <= |b|
    ensures Decode(v, b[o..o + RecordSize(v)]) == ContactAt(b, o, RecordSize(v))
  {
    var n := RecordSize(v);
    var e := b[o..o + n];
    SubSlice(b, o, n, 0, 16);
    SubSlice(b, o, n, 16, 20);
    SubSlice(b, o, n, 20, 22);
    SubSlice(b, o, n, 22, 24);
    if v != 0 { SubSlice(b, o, n, 25, 33); }
  }

  lemma SubSlice(b: Bytes, o: nat, n: nat, from: nat, to: nat)
    requires o + n <= |b| && from <= to <= n
    ensures b[o..o + n][from..to] == b[o + from..o + to]
  {
    var e := b[o..o + n];
    assert forall i :: from <= i < to ==> e[i] == b[o + i];
  }

  lemma ShiftedPiece(b: Bytes, first: nat, from: nat, to: nat)
    requires first <= |b| && from <= to && first + to <= |b|
    ensures b[first..][from..to] == b[first + from..first + to]
  {
  }

  /** The i-th contact is the one stored there. */
  predicate IsStored(b: Bytes, l: Layout, i: nat, p: KadPeer)
    requires l.Laid? && (l.size == 25 || l.size == 34)
  {
    var o := l.first + Before(i, l.size);
    o + l.size <= |b| && p == ContactAt(b, o, l.size)
  }

  lemma OneContact(b: Bytes, i: nat)
    requires LayoutOf(b).Laid? && i < |PeersOf(b)|
    ensures IsStored(b, LayoutOf(b), i, PeersOf(b)[i])
  {
    hide Header, LayoutOf, Chop, Decode, ContactAt, RecordSize, Supported;
    LayoutIsHeader(b);
    var l, v := LayoutOf(b), Header(b).value.version;
    var d := b[l.first..];
    var o := Before(i, l.size);
    ChopAt(d, l.size, l.count, i);
    ShiftedPiece(b, l.first, o, o + l.size);
    DecodeAt(b, l.first + o, v);
  }

  lemma ContactCount(b: Bytes)
    ensures match LayoutOf(b)
            case Laid(first, size, count) =>
              |PeersOf(b)| == if count < (|b| - first) / size then count else (|b| - first) / size
            case _ => PeersOf(b) == []
  {
    hide Header, LayoutOf, Chop, Decode, RecordSize, Supported;
    LayoutIsHeader(b);
    var l := LayoutOf(b);
    if l.Laid? { ChopSize(b[l.first..], l.size, l.count); }
  }

  /**
   * The contacts of any bytes: as many as fit, up to the declared number, each made of the bytes at
   * its place in the file.
   */
  lemma {:induction false} ContactsPlain(b: Bytes)
    ensures match LayoutOf(b)
            case Laid(first, size, count) =>
              && |PeersOf(b)| == (if count < (|b| - first) / size then count else (|b| - first) / size)
              && forall i :: 0 <= i < |PeersOf(b)| ==> IsStored(b, LayoutOf(b), i, PeersOf(b)[i])
            case _ => PeersOf(b) == []
  {
    hide PeersOf, LayoutOf, IsStored;
    ContactCount(b);
    var l := LayoutOf(b);
    if l.Laid? {
      forall i | 0 <= i < |PeersOf(b)|
        ensures IsStored(b, l, i, PeersOf(b)[i])
      {
        OneContact(b, i);
      }
    }
  }

  // Versions and errors, over any run at all.

  /** What is known of the header and the error between any two calls, late ones included. */
  predicate HeadKnown(r: Run) {
    && r.st.Valid()
    && match Header(r.fed)
       case None => AwaitsHeader(r.st, r.fed) && r.drained == []
       case Some(h) =>
         && r.st.headerParsed && r.st.version == h.version && r.st.nrTotal == h.total
         && if Supported(h.version) then r.st.error == 0 || (r.st.error == -12 && r.room == 0)
            else r.st.error == -22 && r.All() == []
  }

  lemma RecordsKeepHead(st: State, buf: Bytes, hdr: nat, room: nat)
    requires st.Valid() && st.headerParsed
    ensures var p := ProcRecords(st, buf, hdr, room);
            && p.st.headerParsed && p.st.version == st.version && p.st.nrTotal == st.nrTotal
            && if Supported(st.version) then p.st.error == st.error || (p.st.error == -12 && p.room == 0)
               else p == ProcResult(st.(error := -22), -22, room)
  {
    hide Records, ToInt32, Supported;
  }

  lemma HeadDrain(r: Run)
    requires HeadKnown(r)
    ensures HeadKnown(Step(r, Drain))
  {
    hide Header, Supported;
    assert Step(r, Drain).All() == r.All();
  }

  lemma HeadFeed(r: Run, c: Bytes)
    requires HeadKnown(r)
    ensures HeadKnown(Step(r, Feed(c)))
  {
    hide Header, Supported, ProcRecords, HeaderParser;
    if c == [] || r.st.error < 0 {
      assert r.fed + [] == r.fed;
      if Header(r.fed).Some? { HeaderStable(r.fed, c); }
    } else if Header(r.fed).Some? {
      HeaderStable(r.fed, c);
      RecordsKeepHead(r.st, c, 0, r.room);
    } else {
      HeaderMeaning(r.st, r.fed, c);
      var s := HeaderParser(r.st, c);
      if Header(r.fed + c).Some? { RecordsKeepHead(s.st, c[s.consumed..], s.consumed, r.room); }
    }
  }

  lemma {:induction false} HeadRun(r: Run, ops: seq<Op>)
    requires HeadKnown(r)
    ensures HeadKnown(Steps(r, ops)) && Steps(r, ops).fed == r.fed + Fed(ops)
    decreases |ops|
  {
    hide HeadKnown, Step;
    HeadIsValid(r);
    if ops == [] {
      assert r.fed + [] == r.fed;
    } else {
      StepFeeds(r, ops[0]);
      match ops[0] {
        case Feed(c) =>
          HeadFeed(r, c);
          assert r.fed + (c + Fed(ops[1..])) == r.fed + c + Fed(ops[1..]);
        case Drain =>
          HeadDrain(r);
          assert r.fed + ([] + Fed(ops[1..])) == r.fed + Fed(ops[1..]);
      }
      HeadRun(Step(r, ops[0]), ops[1..]);
    }
  }

  lemma HeadIsValid(r: Run)
    requires HeadKnown(r)
    ensures r.st.Valid()
  {
  }

  lemma StartHead(head: Bytes, cur: Bytes, room: nat)
    requires |head| == 12 && |cur| == 34
    ensures HeadKnown(Start(head, cur, room))
  {
  }

  /** The file begins with four zero bytes and a complete header. */
  predicate HasHeader(b: Bytes) { |b| >= 12 && b[0] == 0 && b[1] == 0 && b[2] == 0 && b[3] == 0 }

  /**
   * Any calls whatever on a file with such a header: versions other than 0 and 2 are refused with -22
   * and without contacts; with version 0 or 2 there is no error unless an allocation fails.
   */
  lemma {:induction false} VersionRule(head: Bytes, cur: Bytes, room: nat, ops: seq<Op>)
    requires |head| == 12 && |cur| == 34 && HasHeader(Fed(ops))
    ensures var r, v := Steps(Start(head, cur, room), ops), Word(Fed(ops), 4);
            && r.st.headerParsed && r.st.nrTotal == Word(Fed(ops), 8)
            && r.st.version == (if v < 2147483648 then v else v - 4294967296)
            && (v != 0 && v != 2 ==> r.st.error == -22 && r.All() == [] && r.room == room)
            && (v == 0 || v == 2 ==> r.st.error == 0 || (r.st.error == -12 && r.room == 0))
  {
    hide Header, Steps, Fed;
    StartHead(head, cur, room);
    HeadRun(Start(head, cur, room), ops);
    RunRoom(Start(head, cur, room), ops);
    var b := Fed(ops);
    assert [] + b == b;
    HeaderPlain(b);
    WordBound(b, 4);
  }

  /** A file that begins with a number other than zero has version 0 and that many records. */
  lemma {:induction false} OldVersionRule(head: Bytes, cur: Bytes, room: nat, ops: seq<Op>)
    requires |head| == 12 && |cur| == 34 && |Fed(ops)| >= 4 && Word(Fed(ops), 0) != 0
    ensures var r := Steps(Start(head, cur, room), ops);
            && r.st.headerParsed && r.st.version == 0 && r.st.nrTotal == Word(Fed(ops), 0)
            && (r.st.error == 0 || (r.st.error == -12 && r.room == 0))
  {
    hide Header, Steps, Fed, Word;
    StartHead(head, cur, room);
    HeadRun(Start(head, cur, room), ops);
    var b := Fed(ops);
    assert [] + b == b;
    HeaderPlain(b);
  }

  // Return values with errors.

  /** The call that completes the header of a refused file returns -22, and so does every later one. */
  lemma {:induction false} RefusalIsReturned(head: Bytes, cur: Bytes, room: nat, ops: seq<Op>, c: Bytes)
    requires |head| == 12 && |cur| == 34 && HasHeader(Fed(ops) + c)
    requires Word(Fed(ops) + c, 4) != 0 && Word(Fed(ops) + c, 4) != 2
    ensures var r := Steps(Start(head, cur, room), ops); Proc(r.st, c, r.room).ret == -22
  {
    hide Header, Steps, Fed, Word;
    StartHead(head, cur, room);
    HeadRun(Start(head, cur, room), ops);
    var b := Fed(ops);
    assert [] + b == b;
    RefusingCall(Steps(Start(head, cur, room), ops), c);
  }

  lemma RefusingCall(r: Run, c: Bytes)
    requires HeadKnown(r) && HasHeader(r.fed + c) && Word(r.fed + c, 4) != 0 && Word(r.fed + c, 4) != 2
    ensures Proc(r.st, c, r.room).ret == -22
  {
    hide Header, ProcRecords, HeaderParser, Word;
    var b := r.fed + c;
    assert r.fed + [] == r.fed;
    HeaderPlain(b);
    WordBound(b, 4);
    ZeroWord(b);
    if Header(r.fed).Some? {
      HeaderStable(r.fed, c);
    } else {
      HeaderMeaning(r.st, r.fed, c);
      var s := HeaderParser(r.st, c);
      RecordsKeepHead(s.st, c[s.consumed..], s.consumed, r.room);
    }
  }

  lemma ZeroWord(b: Bytes)
    requires HasHeader(b)
    ensures Word(b, 0) == 0
  {
  }

  /** After any error every later call returns that error and changes nothing. */
  lemma {:induction false} ErrorIsReturned(r: Run, ops: seq<Op>, c: Bytes)
    requires r.st.Valid() && r.st.error < 0
    ensures var r' := Steps(r, ops); Proc(r'.st, c, r'.room) == ProcResult(r'.st, r.st.error, r.room)
  {
    hide Steps, ProcRecords, HeaderParser;
    FailureIsFinal(r, ops);
  }

  lemma {:induction false} NoMemoryCounts(cur: Bytes, pos: nat, nr: nat, total: nat, v: int, buf: Bytes, room: nat)
    requires |cur| == SIZEOF_ENTRY && pos < RecordSize(v) && nr <= total
    requires Records(cur, pos, nr, total, v, buf, room).end.NoMemory?
    ensures var l := Records(cur, pos, nr, total, v, buf, room);
            && l.nr == nr + room && |l.made| == room
            && l.consumed == if room == 0 then 0 else room * RecordSize(v) - pos
    decreases total - nr
  {
    hide Records, Decode, Blit, RecordSize;
    RecordsOnce(cur, pos, nr, total, v, buf, room);
    if room > 0 {
      var g := RecordSize(v);
      var n := Min(g - pos, |buf|);
      var cur' := Blit(cur, pos, buf[..n]);
      NoMemoryCounts(cur', 0, nr + 1, total, v, buf[n..], room - 1);
      OneMore(room - 1, g);
    }
  }

  lemma FailingRecords(st: State, h: Head, payload: Bytes, buf: Bytes, hdr: nat, room: nat)
    requires Describes(st, h) && InRecord(st, h, payload) && hdr + |buf| <= INT_MAX
    requires ProcRecords(st, buf, hdr, room).st.error == -12
    ensures var p, g := ProcRecords(st, buf, hdr, room), RecordSize(h.version);
            && p.st.curPos == 0 && p.st.nrConsumed == st.nrConsumed + room && |p.st.peers| == |st.peers| + room
            && |payload| == st.nrConsumed * g + st.curPos && |Chop(payload, g, h.total)| == st.nrConsumed
            && p.ret == if room == 0 then hdr else hdr + room * g - st.curPos
  {
    hide Records, Decode, Blit, RecordSize, ToInt32, Chop, Rest;
    var l := Records(st.cur, st.curPos, st.nrConsumed, st.nrTotal, st.version, buf, room);
    ChopCounts(payload, RecordSize(h.version), h.total);
    NoMemoryCounts(st.cur, st.curPos, st.nrConsumed, st.nrTotal, st.version, buf, room);
    SmallCount(hdr + l.consumed);
  }

  /**
   * The call in which an allocation fails returns the bytes up to the end of the last record made,
   * so that of the chunk belonging to the header and to whole records; the rest of it is lost.
   */
  lemma {:induction false} FailingCallReturns(r: Run, c: Bytes)
    requires Inv(r) && r.st.error == 0 && |c| <= 2147483647 && (c == [] || !IsFull(r.fed))
    requires Step(r, Feed(c)).st.error == -12
    ensures var r', lay := Step(r, Feed(c)), LayoutOf(r.fed + c);
            && lay.Laid? && r'.st.curPos == 0 && r'.st.nrConsumed == |r'.All()|
            && var end := lay.first + |r'.All()| * lay.size;
              Proc(r.st, c, r.room).ret == if end < |r.fed| then 0 else end - |r.fed|
  {
    hide ProcRecords, HeaderParser, Header, LayoutOf, PeersOf, IsComplete, IsFull, RecordSize, Supported;
    hide InRecord, DecodeAll, Chop;
    LayoutIsHeader(r.fed + c);
    if Header(r.fed).None? {
      FailingHeaderCall(r, c);
    } else {
      FailingPayloadCall(r, c);
    }
  }

  lemma FailingHeaderCall(r: Run, c: Bytes)
    requires Inv(r) && r.st.error == 0 && |c| <= INT_MAX && Header(r.fed).None?
    requires Step(r, Feed(c)).st.error == -12
    ensures Header(r.fed + c).Some? && Supported(Header(r.fed + c).value.version)
    ensures var r', h := Step(r, Feed(c)), Header(r.fed + c).value;
            && r'.st.curPos == 0 && r'.st.nrConsumed == |r'.All()|
            && Proc(r.st, c, r.room).ret == h.len + |r'.All()| * RecordSize(h.version) - |r.fed| >= 0
  {
    hide ProcRecords, HeaderParser, Header, RecordSize, DecodeAll, Chop, Rest, InRecord;
    HeaderMeaning(r.st, r.fed, c);
    var h := Header(r.fed + c).value;
    var s := HeaderParser(r.st, c);
    var rest := c[s.consumed..];
    if !Supported(h.version) { UnsupportedVersion(s.st, rest, s.consumed, r.room); }
    NothingYet(h, s.st);
    FailingRecords(s.st, h, [], rest, s.consumed, r.room);
  }

  lemma DescribesParts(r: Run, h: Head)
    requires Inv(r) && r.st.error == 0 && Header(r.fed) == Some(h)
    ensures Describes(r.st, h) && r.st.curPos < RecordSize(h.version) && r.st.headerParsed && r.st.Valid()
    ensures Supported(h.version)
  {
    hide Header, PeersOf, IsComplete, InRecord, Stale;
  }

  lemma FailingPayloadCall(r: Run, c: Bytes)
    requires Inv(r) && r.st.error == 0 && |c| <= INT_MAX && (c == [] || !IsFull(r.fed)) && Header(r.fed).Some?
    requires Step(r, Feed(c)).st.error == -12
    ensures Header(r.fed + c) == Header(r.fed) && Supported(Header(r.fed).value.version)
    ensures var r', h := Step(r, Feed(c)), Header(r.fed).value;
            && r'.st.curPos == 0 && r'.st.nrConsumed == |r'.All()|
            && var end := h.len + |r'.All()| * RecordSize(h.version);
              Proc(r.st, c, r.room).ret == if end < |r.fed| then 0 else end - |r.fed|
  {
    hide ProcRecords, Header, RecordSize, DecodeAll, Chop, Rest, InRecord, Describes;
    HeaderStable(r.fed, c);
    var h := Header(r.fed).value;
    DescribesParts(r, h);
    if IsComplete(r.fed) {
      FeedEmptyFile(r, c);
      NoMemoryError(Step(r, Feed(c)));
    } else {
      var payload := r.fed[h.len..];
      FailingRecords(r.st, h, payload, c, 0, r.room);
      EndOfMade(h.len, r.st.nrConsumed, r.room, RecordSize(h.version), r.st.curPos);
    }
  }

  /** Where m further records end, seen from pos bytes into the first of them. */
  lemma {:induction false} EndOfMade(first: nat, k: nat, m: nat, g: nat, pos: nat)
    requires pos < g
    ensures var at, end := first + k * g + pos, first + (k + m) * g;
            if m == 0 then end <= at else end == at + (m * g - pos) && end > at
  {
    assert (k + m) * g == k * g + m * g;
    if m > 0 { Room(m, g); }
  }
}

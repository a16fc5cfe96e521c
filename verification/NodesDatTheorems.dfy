/** What clients of the incremental parser can rely on, over whole runs. */
module NodesDatTheorems {
  import opened ByteString
  import opened NodesDat
  import opened NodesDatRun

  // The invariant, call by call.

  lemma StartInv(head: Bytes, cur: Bytes, room: nat)
    requires |head| == SIZEOF_HEADER && |cur| == SIZEOF_ENTRY
    ensures Inv(Start(head, cur, room))
  {
  }

  lemma DrainInv(r: Run)
    requires Inv(r)
    ensures Inv(Step(r, Drain))
  {
    hide Header, IsComplete, Rest, Chop, PeersOf;
    var r' := Step(r, Drain);
    assert r'.All() == r.All();
  }

  /** The call that completes the header, or that leaves it incomplete. */
  lemma FeedHeader(r: Run, c: Bytes)
    requires Inv(r) && Header(r.fed).None? && c != []
    ensures var r' := Step(r, Feed(c));
            r'.st.error == -ENOMEM || Inv(r')
  {
    hide HeaderParser, ProcRecords, Header, PeersOf, IsComplete, InRecord, Decode, DecodeAll, Chop, Rest;
    var b := r.fed + c;
    HeaderMeaning(r.st, r.fed, c);
    if Header(b).Some? {
      var h := Header(b).value;
      var s := HeaderParser(r.st, c);
      var rest := c[s.consumed..];
      assert b[h.len..] == [] + rest;
      if Supported(h.version) {
        NothingYet(h, s.st);
        FeedRecords(r, s.st, h, [], rest, s.consumed, c);
      } else {
        UnsupportedVersion(s.st, rest, s.consumed, r.room);
      }
    }
  }

  lemma NothingYet(h: Head, st: State)
    requires st.nrConsumed == 0 && st.curPos == 0
    ensures InRecord(st, h, []) && Chop([], RecordSize(h.version), h.total) == []
    ensures DecodeAll(h.version, []) == []
  {
  }

  lemma UnsupportedVersion(st: State, buf: Bytes, hdr: nat, room: nat)
    requires st.Valid() && st.headerParsed && !Supported(st.version)
    ensures ProcRecords(st, buf, hdr, room) == ProcResult(st.(error := -EINVAL), -EINVAL, room)
  {
  }

  /** A call behind the header that does not follow the completion of the file. */
  lemma FeedPayload(r: Run, c: Bytes)
    requires Inv(r) && Header(r.fed).Some? && Supported(Header(r.fed).value.version)
    requires c != [] && !IsComplete(r.fed)
    ensures var r' := Step(r, Feed(c));
            r'.st.error == -ENOMEM || Inv(r')
  {
    hide ProcRecords, Header, Decode, DecodeAll, Chop, Rest, RecordSize;
    var h := Header(r.fed).value;
    var payload := r.fed[h.len..];
    HeaderStable(r.fed, c);
    assert (r.fed + c)[h.len..] == payload + c;
    ChopCounts(payload, RecordSize(h.version), h.total);
    CompleteIffChopped(r.fed, h);
    FeedRecords(r, r.st, h, payload, c, 0, c);
  }

  /** A file that declares no records is complete with its header; later bytes are left alone. */
  lemma FeedEmptyFile(r: Run, c: Bytes)
    requires Inv(r) && IsComplete(r.fed) && !IsFull(r.fed)
    ensures Inv(Step(r, Feed(c)))
  {
    hide Header, Decode;
    HeaderStable(r.fed, c);
    var h := Header(r.fed).value;
    assert PeersOf(r.fed) == [] && PeersOf(r.fed + c) == [];
    assert (r.fed + c)[h.len..] == r.fed[h.len..] + c;
    StaysStale(r.st.nrConsumed, r.st.curPos, h, r.fed[h.len..], c);
    StaleBelow(r.st.nrConsumed, r.st.curPos, h, r.fed[h.len..]);
    if c == [] { assert r.fed + c == r.fed; }
  }

  lemma FeedInv(r: Run, c: Bytes)
    requires Inv(r) && (c == [] || !IsFull(r.fed))
    ensures var r' := Step(r, Feed(c));
            r'.st.error == -ENOMEM || Inv(r')
  {
    hide Header, PeersOf, IsComplete, IsFull, ProcRecords, HeaderParser, InRecord;
    if c == [] {
      assert r.fed + c == r.fed;
    } else if Header(r.fed).None? {
      FeedHeader(r, c);
    } else if !Supported(Header(r.fed).value.version) {
      HeaderStable(r.fed, c);
    } else if IsComplete(r.fed) {
      FeedEmptyFile(r, c);
    } else {
      FeedPayload(r, c);
    }
  }

  lemma {:induction false} ErrorSticks(r: Run, ops: seq<Op>)
    requires r.st.Valid() && r.st.error < 0
    ensures Steps(r, ops).st.error == r.st.error
    decreases |ops|
  {
    if ops != [] { ErrorSticks(Step(r, ops[0]), ops[1..]); }
  }

  /** Unless an allocation fails, the invariant survives any run. */
  lemma {:induction false} Simulation(r: Run, ops: seq<Op>)
    requires Inv(r) && Feedable(r.fed, ops)
    ensures var r' := Steps(r, ops);
            r'.st.error == -ENOMEM || (Inv(r') && r'.fed == r.fed + Fed(ops))
    decreases |ops|
  {
    hide Inv, Step, IsFull;
    InvIsValid(r);
    if ops == [] {
      assert r.fed + [] == r.fed;
    } else {
      var r1 := Step(r, ops[0]);
      StepFeeds(r, ops[0]);
      match ops[0] {
        case Feed(c) =>
          FeedInv(r, c);
          assert r.fed + (c + Fed(ops[1..])) == r.fed + c + Fed(ops[1..]);
        case Drain =>
          DrainInv(r);
          assert r.fed + ([] + Fed(ops[1..])) == r.fed + Fed(ops[1..]);
      }
      if r1.st.error == -ENOMEM { ErrorSticks(r1, ops[1..]); } else { Simulation(r1, ops[1..]); }
    }
  }

  lemma InvIsValid(r: Run)
    requires Inv(r)
    ensures r.st.Valid()
  {
  }

  lemma StepFeeds(r: Run, op: Op)
    requires r.st.Valid()
    ensures Step(r, op).fed == match op case Feed(c) => r.fed + c case Drain => r.fed
  {
  }

  // The promises.

  /**
   * However the stream is divided into calls and whenever lists are taken away, the client ends up
   * with exactly the peers, the version and the record count of the file read in one go.
   */
  lemma {:induction false} ChunkingInvariance(head: Bytes, cur: Bytes, room: nat, ops: seq<Op>)
    requires |head| == SIZEOF_HEADER && |cur| == SIZEOF_ENTRY && Feedable([], ops)
    ensures var r, b := Steps(Start(head, cur, room), ops), Fed(ops);
            r.st.error != -ENOMEM ==>
              && r.All() == PeersOf(b)
              && (r.st.headerParsed <==> Header(b).Some?)
              && (Header(b).Some? ==>
                   && r.st.version == Header(b).value.version && r.st.nrTotal == Header(b).value.total
                   && r.st.error == if Supported(r.st.version) then 0 else -EINVAL)
  {
    hide Header, IsComplete, InRecord, Steps, Feedable, Fed, RecordsOf, DecodeAll;
    StartInv(head, cur, room);
    Simulation(Start(head, cur, room), ops);
    assert [] + Fed(ops) == Fed(ops);
  }

  /**
   * Two divisions of the same bytes cannot be told apart by their results,
   * nor by the counts returned as long as these fit the int.
   */
  lemma {:induction false} DivisionIsInvisible(head: Bytes, cur: Bytes, room: nat, ops: seq<Op>, ops': seq<Op>)
    requires |head| == SIZEOF_HEADER && |cur| == SIZEOF_ENTRY
    requires Feedable([], ops) && Feedable([], ops') && Fed(ops) == Fed(ops')
    ensures var r, r' := Steps(Start(head, cur, room), ops), Steps(Start(head, cur, room), ops');
            r.st.error != -ENOMEM && r'.st.error != -ENOMEM ==>
              && r.All() == r'.All() && r.st.version == r'.st.version && r.st.error == r'.st.error
              && r.st.headerParsed == r'.st.headerParsed && r.st.nrTotal == r'.st.nrTotal
              && (r.st.error == 0 && SmallChunks(ops) && SmallChunks(ops') ==> r.returned == r'.returned)
  {
    hide Header, IsComplete, InRecord, Steps, Feedable, Fed, PeersOf, SmallChunks, Counted;
    var s := Start(head, cur, room);
    StartInv(head, cur, room);
    Simulation(s, ops);
    Simulation(s, ops');
    assert [] + Fed(ops) == Fed(ops) && [] + Fed(ops') == Fed(ops');
    if SmallChunks(ops) && SmallChunks(ops') {
      StartCounted(head, cur, room);
      CountSimulation(s, ops);
      CountSimulation(s, ops');
      if Steps(s, ops).st.error >= 0 && Steps(s, ops').st.error >= 0 {
        CountsAgree(Fed(ops), Steps(s, ops).returned, Steps(s, ops').returned);
      }
    }
  }

  lemma CountsAgree(fed: Bytes, n: int, n': int)
    requires Counted(fed, n) && Counted(fed, n')
    ensures n == n'
  {
    hide IsComplete, Header;
  }

  // Counts.

  /** Without an error, one call that returns a count that fits keeps the sum right. */
  lemma CountCall(r: Run, c: Bytes)
    requires Inv(r) && Counted(r.fed, r.returned) && |c| <= INT_MAX && (c == [] || !IsFull(r.fed))
    ensures var r' := Step(r, Feed(c));
            r'.st.error < 0 || Counted(r'.fed, r'.returned)
  {
    hide Header, PeersOf, IsComplete, IsFull, ProcRecords, HeaderParser, InRecord, Counted, ToInt32;
    if c == [] {
      assert r.fed + c == r.fed;
    } else if Header(r.fed).None? {
      CountHeader(r, c);
    } else if Supported(Header(r.fed).value.version) {
      if IsComplete(r.fed) { CountEmptyFile(r, c); } else { CountPayload(r, c); }
    }
  }

  lemma CountHeader(r: Run, c: Bytes)
    requires Inv(r) && Counted(r.fed, r.returned) && Header(r.fed).None? && c != [] && |c| <= INT_MAX
    ensures var r' := Step(r, Feed(c));
            r'.st.error < 0 || Counted(r'.fed, r'.returned)
  {
    hide HeaderParser, ProcRecords, Header, PeersOf, InRecord, Decode, DecodeAll, Chop, Rest;
    var b := r.fed + c;
    HeaderMeaning(r.st, r.fed, c);
    if Header(b).Some? {
      var h := Header(b).value;
      var s := HeaderParser(r.st, c);
      var rest := c[s.consumed..];
      assert b[h.len..] == [] + rest;
      if Supported(h.version) {
        NothingYet(h, s.st);
        CountRecords(r, s.st, h, [], rest, s.consumed, c);
      } else {
        UnsupportedVersion(s.st, rest, s.consumed, r.room);
      }
    }
  }

  lemma CountPayload(r: Run, c: Bytes)
    requires Inv(r) && Counted(r.fed, r.returned) && Header(r.fed).Some? && Supported(Header(r.fed).value.version)
    requires c != [] && |c| <= INT_MAX && !IsComplete(r.fed)
    ensures var r' := Step(r, Feed(c));
            r'.st.error < 0 || Counted(r'.fed, r'.returned)
  {
    hide ProcRecords, Header, Decode, DecodeAll, Chop, Rest, RecordSize;
    var h := Header(r.fed).value;
    var payload := r.fed[h.len..];
    HeaderStable(r.fed, c);
    assert (r.fed + c)[h.len..] == payload + c;
    ChopCounts(payload, RecordSize(h.version), h.total);
    CompleteIffChopped(r.fed, h);
    CountRecords(r, r.st, h, payload, c, 0, c);
  }

  lemma CountEmptyFile(r: Run, c: Bytes)
    requires Inv(r) && Counted(r.fed, r.returned) && IsComplete(r.fed) && !IsFull(r.fed)
    ensures Counted(r.fed + c, Step(r, Feed(c)).returned)
  {
    hide Header, Decode, PeersOf;
    HeaderStable(r.fed, c);
    if c == [] { assert r.fed + c == r.fed; }
  }

  lemma ErrorStays(r: Run, op: Op)
    requires r.st.Valid() && r.st.error < 0
    ensures Step(r, op).st.error == r.st.error && Step(r, op).returned == r.returned && Step(r, op).room == r.room
    ensures Step(r, op).All() == r.All()
  {
    if op.Drain? { assert r.drained + r.st.peers + [] == r.drained + r.st.peers; }
  }

  /** The sum of the counts over a whole run without an error. */
  lemma {:induction false} CountSimulation(r: Run, ops: seq<Op>)
    requires Inv(r) && Counted(r.fed, r.returned) && Feedable(r.fed, ops) && SmallChunks(ops)
    ensures Steps(r, ops).st.error >= 0 ==> Counted(r.fed + Fed(ops), Steps(r, ops).returned)
    decreases |ops|
  {
    hide Inv, Step, IsFull, Counted;
    InvIsValid(r);
    if ops == [] {
      assert r.fed + [] == r.fed;
    } else {
      var r1 := Step(r, ops[0]);
      StepFeeds(r, ops[0]);
      assert SmallChunks(ops[1..]) by { assert forall k :: 0 <= k < |ops[1..]| ==> ops[1..][k] == ops[k + 1]; }
      match ops[0] {
        case Feed(c) =>
          FeedInv(r, c);
          CountCall(r, c);
          assert r.fed + (c + Fed(ops[1..])) == r.fed + c + Fed(ops[1..]);
        case Drain =>
          DrainInv(r);
          DrainReturnsNothing(r);
          assert r.fed + ([] + Fed(ops[1..])) == r.fed + Fed(ops[1..]);
      }
      if r1.st.error < 0 { ErrorSticks(r1, ops[1..]); } else { CountSimulation(r1, ops[1..]); }
    }
  }

  lemma DrainReturnsNothing(r: Run)
    requires r.st.Valid()
    ensures Step(r, Drain).returned == r.returned && Step(r, Drain).st.error == r.st.error
  {
  }

  lemma StartCounted(head: Bytes, cur: Bytes, room: nat)
    requires |head| == SIZEOF_HEADER && |cur| == SIZEOF_ENTRY
    ensures Counted(Start(head, cur, room).fed, Start(head, cur, room).returned)
  {
  }

  /**
   * Byte conservation. While the parse is in progress the bytes fed are header bytes, whole records
   * and the buffered part of the next one; and if the counts fit the int that is returned, they add up
   * to the bytes fed, and to exactly the declared file size once the parse is complete.
   */
  lemma {:induction false} ByteConservation(head: Bytes, cur: Bytes, room: nat, ops: seq<Op>)
    requires |head| == SIZEOF_HEADER && |cur| == SIZEOF_ENTRY && Feedable([], ops)
    ensures var r, b := Steps(Start(head, cur, room), ops), Fed(ops);
            r.st.error == 0 ==>
              && (!IsComplete(b) ==>
                   |b| == r.st.headPos + RecordSize(r.st.version) * |r.All()| + r.st.curPos)
              && (SmallChunks(ops) ==>
                   r.returned == if IsComplete(b) then FileSize(Header(b).value) else |b|)
  {
    hide Header, Steps, Feedable, Fed, DecodeAll, Chop, Rest, RecordSize, SmallChunks;
    var s := Start(head, cur, room);
    StartInv(head, cur, room);
    StartCounted(head, cur, room);
    Simulation(s, ops);
    var r, b := Steps(s, ops), Fed(ops);
    assert [] + b == b;
    if SmallChunks(ops) { CountSimulation(s, ops); }
    if r.st.error == 0 && Header(b).Some? {
      var h := Header(b).value;
      ChopCounts(b[h.len..], RecordSize(h.version), h.total);
    }
  }

  /**
   * One call: it returns the whole length unless it completes the file, and then it returns what was
   * missing; so the length comes back exactly when no byte of the chunk lies behind the file.
   */
  lemma {:induction false} CallReturns(r: Run, c: Bytes)
    requires Inv(r) && Counted(r.fed, r.returned) && r.st.error == 0 && |c| <= INT_MAX && (c == [] || !IsFull(r.fed))
    requires Step(r, Feed(c)).st.error == 0
    ensures var ret, b := Proc(r.st, c, r.room).ret, r.fed + c;
            && ret >= 0
            && (!IsComplete(b) ==> ret == |c|)
            && (IsComplete(b) ==> r.returned + ret == FileSize(Header(b).value))
            && (!IsComplete(r.fed) ==> (ret == |c| <==> Header(b).None? || |b| <= FileSize(Header(b).value)))
  {
    hide Header, Proc, PeersOf, InRecord;
    FeedInv(r, c);
    CountCall(r, c);
    ReturnSign(r.st, c, r.room);
    var b := r.fed + c;
    if Header(r.fed).Some? { HeaderStable(r.fed, c); }
  }

  lemma ReturnSign(st: State, buf: Bytes, room: nat)
    requires st.Valid() && |buf| <= INT_MAX
    ensures st.error >= 0 && Proc(st, buf, room).st.error == 0 ==> Proc(st, buf, room).ret >= 0
  {
    hide ProcRecords, HeaderParser;
    if st.headerParsed {
      RecordsReturnSign(st, buf, 0, room);
    } else {
      var h := HeaderParser(st, buf);
      if h.st.headerParsed { RecordsReturnSign(h.st, buf[h.consumed..], h.consumed, room); }
    }
  }

  lemma RecordsReturnSign(st: State, buf: Bytes, hdr: nat, room: nat)
    requires st.Valid() && st.headerParsed && hdr + |buf| <= INT_MAX
    ensures Supported(st.version) ==> ProcRecords(st, buf, hdr, room).ret >= 0
    ensures !Supported(st.version) ==> ProcRecords(st, buf, hdr, room).st.error < 0
  {
    hide Records, ToInt32, Supported;
    var l := Records(st.cur, st.curPos, st.nrConsumed, st.nrTotal, st.version, buf, room);
    SmallCount(hdr + l.consumed);
  }

  // Memory.

  lemma ProcRoom(st: State, buf: Bytes, room: nat)
    requires st.Valid()
    ensures var p := Proc(st, buf, room);
            p.room + |p.st.peers| == room + |st.peers|
  {
    hide Records, ToInt32, HeaderParser, Supported;
    if st.error >= 0 && buf != [] && !st.headerParsed { HeaderIgnoresList(st, st.peers, buf); }
  }

  /** Every allocation is a peer, held or taken. */
  lemma {:induction false} RunRoom(r: Run, ops: seq<Op>)
    requires r.st.Valid()
    ensures Steps(r, ops).room + |Steps(r, ops).All()| == r.room + |r.All()|
    decreases |ops|
  {
    hide Proc;
    if ops != [] {
      if ops[0].Feed? { ProcRoom(r.st, ops[0].chunk, r.room); }
      RunRoom(Step(r, ops[0]), ops[1..]);
    }
  }

  /** The call in which an allocation fails has delivered as many contacts as there was room for. */
  lemma FailedFeed(r: Run, c: Bytes)
    requires Inv(r) && (c == [] || !IsFull(r.fed))
    requires Step(r, Feed(c)).st.error == -ENOMEM
    ensures DeliveredFirst(Step(r, Feed(c)), |r.All()| + r.room)
  {
    hide ProcRecords, HeaderParser, Header, DecodeAll, Chop, Rest, RecordSize, DeliveredFirst;
    if c == [] {
      assert r.fed + c == r.fed;
      NoMemoryError(r);
    } else if Header(r.fed).None? {
      HeaderMeaning(r.st, r.fed, c);
      var h := Header(r.fed + c).value;
      var s := HeaderParser(r.st, c);
      var rest := c[s.consumed..];
      assert (r.fed + c)[h.len..] == [] + rest;
      if Supported(h.version) {
        NothingYet(h, s.st);
        FailedRecords(r, s.st, h, [], rest, s.consumed, c);
      } else {
        UnsupportedVersion(s.st, rest, s.consumed, r.room);
      }
    } else {
      FailedPayload(r, c);
    }
  }

  lemma FailedPayload(r: Run, c: Bytes)
    requires Inv(r) && Header(r.fed).Some? && c != [] && !IsFull(r.fed)
    requires Step(r, Feed(c)).st.error == -ENOMEM
    ensures DeliveredFirst(Step(r, Feed(c)), |r.All()| + r.room)
  {
    hide ProcRecords, Header, DecodeAll, Chop, Rest, RecordSize, DeliveredFirst;
    var h := Header(r.fed).value;
    HeaderStable(r.fed, c);
    if Supported(h.version) {
      if IsComplete(r.fed) {
        FeedEmptyFile(r, c);
        NoMemoryError(Step(r, Feed(c)));
      } else {
        assert (r.fed + c)[h.len..] == r.fed[h.len..] + c;
        FailedRecords(r, r.st, h, r.fed[h.len..], c, 0, c);
      }
    }
  }

  lemma NoMemoryError(r: Run)
    requires Inv(r)
    ensures r.st.error != -ENOMEM
  {
    hide Header, PeersOf, InRecord, IsComplete;
  }

  /** More bytes only ever add contacts. */
  lemma PeersOfGrows(b: Bytes, c: Bytes)
    ensures PeersOf(b) <= PeersOf(b + c)
  {
    hide Header, Decode, Chop;
    if Header(b).Some? && Supported(Header(b).value.version) {
      HeaderStable(b, c);
      var h := Header(b).value;
      var g := RecordSize(h.version);
      assert (b + c)[h.len..] == b[h.len..] + c;
      ChopAppend(b[h.len..], c, g, h.total);
      var before := Chop(b[h.len..], g, h.total);
      var more := Chop(Rest(b[h.len..], g, h.total) + c, g, h.total - |before|);
      DecodeAllAppend(h.version, before, more);
    }
  }

  /** After an error nothing is delivered or counted any more, whatever is fed and drained. */
  lemma {:induction false} FailureIsFinal(r: Run, ops: seq<Op>)
    requires r.st.Valid() && r.st.error < 0
    ensures var r' := Steps(r, ops);
            r'.All() == r.All() && r'.returned == r.returned && r'.st.error == r.st.error && r'.room == r.room
    decreases |ops|
  {
    hide Step;
    if ops != [] {
      ErrorStays(r, ops[0]);
      FailureIsFinal(Step(r, ops[0]), ops[1..]);
    }
  }

  /** In terms of the file: what had been delivered stays its first contacts. */
  lemma {:induction false} FailureKeepsFirst(r: Run, ops: seq<Op>, n: nat)
    requires r.st.Valid() && r.st.error < 0 && DeliveredFirst(r, n)
    ensures var r' := Steps(r, ops);
            r'.fed == r.fed + Fed(ops) && DeliveredFirst(r', n)
    decreases |ops|
  {
    hide PeersOf;
    if ops == [] {
      assert r.fed + [] == r.fed;
    } else {
      var r1 := Step(r, ops[0]);
      var rest := Fed(ops[1..]);
      match ops[0] {
        case Feed(c) =>
          PeersOfGrows(r.fed, c);
          assert r.fed + (c + rest) == r.fed + c + rest;
        case Drain =>
          assert r1.All() == r.All();
          assert r.fed + ([] + rest) == r.fed + rest;
      }
      FailureKeepsFirst(r1, ops[1..], n);
    }
  }

  lemma {:induction false} RunFails(r: Run, ops: seq<Op>)
    requires Inv(r) && Feedable(r.fed, ops)
    requires Steps(r, ops).st.error == -ENOMEM
    ensures Steps(r, ops).fed == r.fed + Fed(ops)
    ensures DeliveredFirst(Steps(r, ops), |r.All()| + r.room)
    decreases |ops|
  {
    hide Inv, Step, IsFull, DeliveredFirst;
    InvIsValid(r);
    if ops == [] {
      NoMemoryError(r);
    } else {
      var r1 := Step(r, ops[0]);
      StepFeeds(r, ops[0]);
      StepRoom(r, ops[0]);
      var rest := Fed(ops[1..]);
      match ops[0] {
        case Feed(c) =>
          FeedInv(r, c);
          assert r.fed + (c + rest) == r.fed + c + rest;
          if r1.st.error == -ENOMEM {
            FailedFeed(r, c);
            FailureKeepsFirst(r1, ops[1..], |r.All()| + r.room);
          }
        case Drain =>
          DrainInv(r);
          assert r.fed + ([] + rest) == r.fed + rest;
      }
      if r1.st.error != -ENOMEM || ops[0].Drain? { RunFails(r1, ops[1..]); }
    }
  }

  lemma StepRoom(r: Run, op: Op)
    requires r.st.Valid()
    ensures Step(r, op).room + |Step(r, op).All()| == r.room + |r.All()|
  {
    hide Proc;
    if op.Feed? { ProcRoom(r.st, op.chunk, r.room); }
  }

  /**
   * Memory, exactly. A run fails for lack of it if and only if more records have arrived than
   * allocations were left; in every case the contacts delivered are the first ones of the file,
   * all of them or as many as there was room for.
   */
  lemma {:induction false} MemoryExactly(head: Bytes, cur: Bytes, room: nat, ops: seq<Op>)
    requires |head| == SIZEOF_HEADER && |cur| == SIZEOF_ENTRY && Feedable([], ops)
    ensures var r, ps := Steps(Start(head, cur, room), ops), PeersOf(Fed(ops));
            && (r.st.error == -ENOMEM <==> room < |ps|)
            && r.All() == ps[..Min(room, |ps|)]
  {
    hide PeersOf, Steps, Inv, Fed, Feedable;
    var s := Start(head, cur, room);
    var r := Steps(s, ops);
    StartInv(head, cur, room);
    assert [] + Fed(ops) == Fed(ops);
    RunRoom(s, ops);
    if r.st.error == -ENOMEM {
      RunFails(s, ops);
    } else {
      ChunkingInvariance(head, cur, room, ops);
      assert PeersOf(Fed(ops))[..|PeersOf(Fed(ops))|] == PeersOf(Fed(ops));
    }
  }

  // Draining.

  /** The same calls without the drains. */
  function Undrained(ops: seq<Op>): seq<Op> {
    if ops == [] then []
    else if ops[0].Drain? then Undrained(ops[1..])
    else [ops[0]] + Undrained(ops[1..])
  }

  /** Two runs that differ only in where the peers made so far are kept. */
  predicate SameButList(r: Run, r': Run) {
    && r'.st == r.st.(peers := r'.st.peers) && r.All() == r'.All()
    && r.room == r'.room && r.fed == r'.fed && r.returned == r'.returned
  }

  lemma ProcIgnoresList(st: State, peers: seq<KadPeer>, buf: Bytes, room: nat)
    requires st.Valid()
    ensures var p, p' := Proc(st, buf, room), Proc(st.(peers := peers), buf, room);
            && p'.ret == p.ret && p'.room == p.room
            && |p.st.peers| >= |st.peers| && p.st.peers[..|st.peers|] == st.peers
            && p'.st == p.st.(peers := peers + p.st.peers[|st.peers|..])
  {
    hide ProcRecords, HeaderParser;
    if st.error >= 0 && buf != [] {
      if st.headerParsed {
        RecordsIgnoreList(st, peers, buf, 0, room);
      } else {
        HeaderIgnoresList(st, peers, buf);
        var h := HeaderParser(st, buf);
        if h.st.headerParsed { RecordsIgnoreList(h.st, peers, buf[h.consumed..], h.consumed, room); }
      }
    }
  }

  lemma RecordsIgnoreList(st: State, peers: seq<KadPeer>, buf: Bytes, hdr: nat, room: nat)
    requires st.Valid() && st.headerParsed
    ensures var p, p' := ProcRecords(st, buf, hdr, room), ProcRecords(st.(peers := peers), buf, hdr, room);
            && p'.ret == p.ret && p'.room == p.room
            && |p.st.peers| >= |st.peers| && p.st.peers[..|st.peers|] == st.peers
            && p'.st == p.st.(peers := peers + p.st.peers[|st.peers|..])
  {
    hide Records, ToInt32;
    if Supported(st.version) {
      var made := Records(st.cur, st.curPos, st.nrConsumed, st.nrTotal, st.version, buf, room).made;
      assert (st.peers + made)[|st.peers|..] == made;
    } else {
      assert peers + [] == peers;
    }
  }

  lemma ZeroIgnoresList(st: State, peers: seq<KadPeer>, buf: Bytes)
    requires st.Valid() && !st.headerParsed
    ensures ParseZero(st.(peers := peers), buf) ==
            HeaderStep(ParseZero(st, buf).st.(peers := peers), ParseZero(st, buf).consumed)
  {
    hide Blit, Le32;
  }

  lemma HeaderIgnoresList(st: State, peers: seq<KadPeer>, buf: Bytes)
    requires st.Valid() && !st.headerParsed
    ensures HeaderParser(st, buf).st.peers == st.peers
    ensures HeaderParser(st.(peers := peers), buf) ==
            HeaderStep(HeaderParser(st, buf).st.(peers := peers), HeaderParser(st, buf).consumed)
  {
    hide Blit, Le32, ToInt32, ParseZero;
    HeaderKeeps(st, buf);
    ZeroIgnoresList(st, peers, buf);
  }

  lemma {:induction false} DrainsDoNotMatter(r: Run, r': Run, ops: seq<Op>)
    requires r.st.Valid() && r'.st.Valid() && SameButList(r, r')
    ensures SameButList(Steps(r, ops), Steps(r', Undrained(ops)))
    ensures Steps(r', Undrained(ops)).drained == r'.drained
    decreases |ops|
  {
    hide Proc;
    if ops != [] {
      match ops[0]
      case Drain => DrainsDoNotMatter(Step(r, Drain), r', ops[1..]);
      case Feed(c) =>
        SameAfterFeed(r, r', c);
        var u := Undrained(ops);
        assert u[0] == Feed(c) && u[1..] == Undrained(ops[1..]);
        DrainsDoNotMatter(Step(r, Feed(c)), Step(r', Feed(c)), ops[1..]);
    }
  }

  lemma SameAfterFeed(r: Run, r': Run, c: Bytes)
    requires r.st.Valid() && r'.st.Valid() && SameButList(r, r')
    ensures SameButList(Step(r, Feed(c)), Step(r', Feed(c)))
    ensures Step(r', Feed(c)).drained == r'.drained
  {
    hide Proc;
    ProcIgnoresList(r.st, r'.st.peers, c, r.room);
    var p := Proc(r.st, c, r.room);
    var made := p.st.peers[|r.st.peers|..];
    assert p.st.peers == r.st.peers + made;
    assert r.drained + (r.st.peers + made) == r.All() + made;
    assert r'.drained + (r'.st.peers + made) == r'.All() + made;
  }

  /**
   * Taking lists away at any points, whether or not allocations fail, and concatenating them gives
   * exactly the list an undisturbed run holds at its end; nothing else changes either.
   */
  lemma {:induction false} DrainingIsNeutral(head: Bytes, cur: Bytes, room: nat, ops: seq<Op>)
    requires |head| == SIZEOF_HEADER && |cur| == SIZEOF_ENTRY
    ensures var r, u := Steps(Start(head, cur, room), ops), Steps(Start(head, cur, room), Undrained(ops));
            r.All() == u.st.peers && u.st == r.st.(peers := u.st.peers) && r.returned == u.returned
  {
    hide Steps, Undrained;
    var s := Start(head, cur, room);
    DrainsDoNotMatter(s, s, ops);
    var u := Steps(s, Undrained(ops));
    assert [] + u.st.peers == u.st.peers;
  }

  // Behind the end of the file.

  /**
   * A call with bytes behind a complete file is without any effect
   * if and only if the file declared no records.
   */
  lemma LateFeedIff(r: Run, c: Bytes)
    requires Inv(r) && IsComplete(r.fed) && c != []
    ensures Proc(r.st, c, r.room) == ProcResult(r.st, 0, r.room) <==> Header(r.fed).value.total == 0
  {
    hide Header, PeersOf, Decode;
    var h := Header(r.fed).value;
    StaleBelow(r.st.nrConsumed, r.st.curPos, h, r.fed[h.len..]);
    if h.total > 0 {
      LateRecords(r.st, c, r.room);
    }
  }

  /** Some byte is stored, some contact made, or an allocation fails. */
  lemma LateRecords(st: State, c: Bytes, room: nat)
    requires st.Valid() && st.headerParsed && st.error == 0 && Supported(st.version)
    requires st.nrConsumed < st.nrTotal && c != []
    ensures Proc(st, c, room) != ProcResult(st, 0, room)
  {
    hide Decode, Blit, ToInt32;
    var l := Records(st.cur, st.curPos, st.nrConsumed, st.nrTotal, st.version, c, room);
    assert l.end.NoMemory? || |l.made| > 0 || l.pos > st.curPos;
  }

  /** What it does instead: a one-record file followed by its own record yields the peer twice. */
  lemma {:induction false} LateFeedDuplicates(head: Bytes, cur: Bytes, record: Bytes)
    requires |head| == SIZEOF_HEADER && |cur| == SIZEOF_ENTRY && |record| == SIZEOF_ENTRY_V0
    ensures var file: Bytes := [1, 0, 0, 0] + record;
            var r := Steps(Start(head, cur, 2), [Feed(file), Feed(record)]);
            && PeersOf(file + record) == [MkKadPeerV0(record)]
            && r.All() == [MkKadPeerV0(record), MkKadPeerV0(record)]
            && r.returned == FileSize(Header(file).value) + SIZEOF_ENTRY_V0
  {
    hide MkKadPeerV0, Step, Steps, PeersOf, Header;
    var file: Bytes := [1, 0, 0, 0] + record;
    var s := Start(head, cur, 2);
    FirstRecord(head, cur, record);
    SecondRecord(Step(s, Feed(file)), record);
    WholeFile(record, record);
    TwoSteps(s, Feed(file), Feed(record));
  }

  lemma TwoSteps(s: Run, a: Op, b: Op)
    requires s.st.Valid()
    ensures Steps(s, [a, b]) == Step(Step(s, a), b)
  {
    hide Step;
    var t := Step(s, a);
    assert [a, b][1..] == [b] && [b][1..] == [];
    assert Steps(t, [b]) == Steps(Step(t, b), []);
  }

  lemma WholeFile(record: Bytes, more: Bytes)
    requires |record| == SIZEOF_ENTRY_V0
    ensures var file: Bytes := [1, 0, 0, 0] + record;
            Header(file) == Some(Head(4, 0, 1)) && PeersOf(file + more) == [MkKadPeerV0(record)]
  {
    hide MkKadPeerV0;
    var file: Bytes := [1, 0, 0, 0] + record;
    var b := file + more;
    assert b[..4] == [1, 0, 0, 0] && file[..4] == [1, 0, 0, 0];
    assert b[4..][..25] == record;
    assert Chop(b[4..], 25, 1) == [record];
  }

  lemma FirstRecord(head: Bytes, cur: Bytes, record: Bytes)
    requires |head| == SIZEOF_HEADER && |cur| == SIZEOF_ENTRY && |record| == SIZEOF_ENTRY_V0
    ensures var file: Bytes := [1, 0, 0, 0] + record;
            var r := Step(Start(head, cur, 2), Feed(file));
            && r.st.headerParsed && r.st.version == 0 && r.st.error == 0 && r.st.nrTotal == 1
            && r.st.nrConsumed == 0 && r.st.curPos == 0 && r.room == 1
            && r.drained == [] && r.st.peers == [MkKadPeerV0(record)] && r.returned == 29
  {
    hide MkKadPeerV0, Header, Records, HeaderParser;
    var file: Bytes := [1, 0, 0, 0] + record;
    var s := InitState(head, cur);
    assert [] + file == file;
    StartInv(head, cur, 2);
    NoHeaderYet();
    HeaderMeaning(s, [], file);
    WholeFile(record, []);
    assert file + [] == file;
    HeaderKeeps(s, file);
    OneRecord(cur, 0, record, 2);
    assert file[4..] == record;
  }

  lemma NoHeaderYet()
    ensures Header([]) == None
  {
  }

  lemma OneRecord(cur: Bytes, nr: nat, record: Bytes, room: nat)
    requires |cur| == SIZEOF_ENTRY && |record| == SIZEOF_ENTRY_V0 && room > 0
    ensures var l := Records(cur, 0, nr, nr + 1, 0, record, room);
            l.end.Complete? && l.made == [MkKadPeerV0(record)] && l.consumed == 25
  {
    var cur' := Blit(cur, 0, record[..25]);
    assert record[..25] == record;
    assert cur'[..25] == record;
    DecodePrefix(0, cur');
    assert Records(cur', 0, nr + 1, nr + 1, 0, record[25..], room - 1).made == [];
  }

  lemma SecondRecord(r: Run, record: Bytes)
    requires r.st.Valid() && r.st.headerParsed && r.st.version == 0 && r.st.error == 0 && r.st.nrTotal == 1
    requires r.st.nrConsumed == 0 && r.st.curPos == 0 && r.room == 1 && |record| == SIZEOF_ENTRY_V0
    ensures var r' := Step(r, Feed(record));
            r'.st.peers == r.st.peers + [MkKadPeerV0(record)] && r'.drained == r.drained
            && r'.returned == r.returned + 25
  {
    hide MkKadPeerV0, Records;
    OneRecord(r.st.cur, 0, record, 1);
  }
}

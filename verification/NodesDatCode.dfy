/**
 * nodes_dat.c and peer.c in their own form: a parser object with two fixed-size buffers and a
 * linked list that grows at its tail, heap nodes that are allocated and freed.
 */
module NodesDatCode {
  import opened ByteString
  import opened NodesDat

  /** struct kad_peer: the embedded list link and the contact. */
  class Peer {
    var next: Peer?
    const data: KadPeer

    constructor (data: KadPeer)
      ensures next == null && this.data == data
    {
      next := null;
      this.data := data;
    }
  }

  /** The allocator: which nodes are allocated and not yet freed, and how many allocations still succeed. */
  class Heap {
    ghost var live: set<Peer>
    var room: nat

    constructor (room: nat)
      ensures live == {} && this.room == room
    {
      live := {};
      this.room := room;
    }

    /** malloc, together with the assignments of mk_kad_peer that fill the node. */
    method Malloc(data: KadPeer) returns (p: Peer?)
      modifies this
      ensures old(room) == 0 ==> p == null && live == old(live) && room == 0
      ensures old(room) > 0 ==>
                p != null && fresh(p) && p.data == data && p.next == null
                && live == old(live) + {p} && room == old(room) - 1
    {
      if room == 0 {
        return null;
      }
      var q := new Peer(data);
      live := live + {q};
      room := room - 1;
      return q;
    }

    /** free: only an allocated node may be freed, and nothing is known of its contents afterwards. */
    method Free(p: Peer)
      requires p in live
      modifies this, p
      ensures live == old(live) - {p} && room == old(room)
    {
      live := live - {p};
    }
  }

  /** The nodes of spine, in order, make up the list that starts at first; no node occurs twice. */
  ghost predicate IsList(first: Peer?, spine: seq<Peer>)
    reads spine
  {
    && (first == if spine == [] then null else spine[0])
    && (forall i :: 0 <= i < |spine| ==> spine[i].next == if i + 1 < |spine| then spine[i + 1] else null)
    && (forall i, j :: 0 <= i < j < |spine| ==> spine[i] != spine[j])
  }

  /** The contacts of the nodes. */
  ghost function Contacts(spine: seq<Peer>): (r: seq<KadPeer>)
    ensures |r| == |spine|
    ensures forall i :: 0 <= i < |r| ==> r[i] == spine[i].data
  {
    seq(|spine|, i requires 0 <= i < |spine| => spine[i].data)
  }

  /** The nodes as a set. */
  ghost function Nodes(spine: seq<Peer>): set<Peer> { set p | p in spine }

  /** memcpy into a fixed-size buffer. */
  method Memcpy(dst: array<Byte>, pos: nat, src: Bytes)
    requires pos + |src| <= dst.Length
    modifies dst
    ensures dst[..] == Blit(old(dst[..]), pos, src)
  {
    for i := 0 to |src|
      invariant forall k :: 0 <= k < dst.Length ==>
                  dst[k] == if pos <= k < pos + i then src[k - pos] else old(dst[k])
    {
      dst[pos + i] := src[i];
    }
  }

  /** free_kad_peers. */
  method FreeKadPeers(heap: Heap, first: Peer?, ghost spine: seq<Peer>)
    requires IsList(first, spine) && Nodes(spine) <= heap.live
    modifies heap, spine
    ensures heap.live == old(heap.live) - Nodes(spine) && heap.room == old(heap.room)
  {
    var peer := first;
    ghost var k := 0;
    while peer != null
      invariant k <= |spine| && peer == (if k < |spine| then spine[k] else null)
      invariant forall i :: k <= i < |spine| ==> spine[i].next == old(spine[i].next)
      invariant heap.live == old(heap.live) - Nodes(spine[..k]) && heap.room == old(heap.room)
      decreases |spine| - k
    {
      var tmp := peer.next;
      assert peer == spine[k] && tmp == old(spine[k].next);
      assert tmp == if k + 1 < |spine| then spine[k + 1] else null;
      assert spine[..k + 1] == spine[..k] + [spine[k]];
      heap.Free(peer);
      peer := tmp;
      k := k + 1;
    }
    assert spine[..k] == spine;
  }

  /** struct nd_parse_ctx. */
  class NdParseCtx {
    var headPos: nat
    var headerParsed: bool
    const head: array<Byte>
    var version: int
    var peers: Peer?
    var tail: Peer? // the node whose next field is addressed; null stands for &npc->peers
    var nrConsumed: nat
    var nrTotal: nat
    var error: int
    const cur: array<Byte>
    var curPos: nat
    ghost var spine: seq<Peer>

    /** The parser as a value. */
    ghost function Value(): State
      reads this, head, cur
    {
      State(headPos, headerParsed, head[..], version, Contacts(spine), nrConsumed, nrTotal, error, cur[..], curPos)
    }

    /** The list is acyclic and tail always addresses its final next field, or the empty head. */
    ghost predicate ListValid()
      reads this, spine
    {
      IsList(peers, spine) && tail == (if spine == [] then null else spine[|spine| - 1])
    }

    ghost predicate Valid()
      reads this, head, cur, spine
    {
      head != cur && ListValid() && Value().Valid()
    }

    /** nd_parse_init; what the two buffers hold is left open. */
    constructor ()
      ensures Valid() && fresh(head) && fresh(cur) && spine == []
      ensures Value() == InitState(head[..], cur[..])
    {
      head := new Byte[SIZEOF_HEADER];
      cur := new Byte[SIZEOF_ENTRY];
      headPos, headerParsed, version := 0, false, 0;
      peers, tail, spine := null, null, [];
      nrConsumed, nrTotal, error, curPos := 0, 0, 0, 0;
    }

    /** The first half of header_parser. */
    method ZeroParser(buf: Bytes) returns (consumed: nat)
      requires Valid() && !headerParsed
      modifies this`headPos, this`headerParsed, this`version, this`nrTotal, head
      ensures Valid() && HeaderStep(Value(), consumed) == ParseZero(old(Value()), buf)
    {
      hide Le32, IsList, Contacts, Blit;
      consumed := 0;
      if headPos < SIZEOF_ZERO {
        var cpySz := Min(|buf|, SIZEOF_ZERO - headPos);
        Memcpy(head, headPos, buf[..cpySz]);
        headPos := headPos + cpySz;
        consumed := cpySz;
        if headPos >= SIZEOF_ZERO && Le32(head[..4]) != 0 {
          version := 0;
          nrTotal := Le32(head[..4]);
          headerParsed := true;
        }
      }
    }

    /** header_parser. */
    method ParseHeader(buf: Bytes) returns (consumed: nat)
      requires Valid() && !headerParsed
      modifies this`headPos, this`headerParsed, this`version, this`nrTotal, head
      ensures Valid() && HeaderStep(Value(), consumed) == HeaderParser(old(Value()), buf)
    {
      hide Le32, ParseZero, ToInt32, IsList, Contacts, Blit;
      consumed := ZeroParser(buf);
      if !headerParsed && headPos >= SIZEOF_ZERO {
        var n := RestOfHeader(buf[consumed..]);
        consumed := consumed + n;
      }
    }

    /** The second half of header_parser. */
    method RestOfHeader(rest: Bytes) returns (n: nat)
      requires Valid() && !headerParsed && headPos >= SIZEOF_ZERO
      modifies this`headPos, this`headerParsed, this`version, this`nrTotal, head
      ensures Valid() && n == Min(|rest|, SIZEOF_HEADER - old(headPos))
      ensures var s := old(Value()).(head := Blit(old(head[..]), old(headPos), rest[..n]), headPos := old(headPos) + n);
              Value() ==
              if s.headPos >= SIZEOF_HEADER then
                s.(version := ToInt32(Le32(s.head[4..8])), nrTotal := Le32(s.head[8..12]), headerParsed := true)
              else s
    {
      hide Le32, ToInt32, IsList, Contacts, Blit;
      n := Min(|rest|, SIZEOF_HEADER - headPos);
      Memcpy(head, headPos, rest[..n]);
      headPos := headPos + n;
      if headPos >= SIZEOF_HEADER {
        version := ToInt32(Le32(head[4..8]));
        nrTotal := Le32(head[8..12]);
        headerParsed := true;
      }
    }

    /** mk_kad_peer or mk_kad_peer_v0 on the filled record. */
    method MakePeer(heap: Heap) returns (p: Peer?)
      requires cur.Length == SIZEOF_ENTRY
      modifies heap
      ensures old(heap.room) == 0 ==> p == null && heap.live == old(heap.live) && heap.room == 0
      ensures old(heap.room) > 0 ==>
                p != null && fresh(p) && p.data == Decode(version, cur[..]) && p.next == null
                && heap.live == old(heap.live) + {p} && heap.room == old(heap.room) - 1
    {
      hide MkKadPeer, MkKadPeerV0;
      p := heap.Malloc(if version != 0 then MkKadPeer(cur[..]) else MkKadPeerV0(cur[..]));
    }

    /** *(npc->tail) = p; npc->tail = &(p->next). */
    method Append(p: Peer)
      requires ListValid() && p.next == null && p !in spine
      modifies this`peers, this`tail, this`spine, tail
      ensures ListValid() && spine == old(spine) + [p]
      ensures Contacts(spine) == Contacts(old(spine)) + [p.data]
    {
      if tail == null {
        peers := p;
      } else {
        tail.next := p;
      }
      tail := p;
      spine := spine + [p];
    }

    /** A filled record becomes a node at the tail, unless the allocation fails. */
    method AddPeer(heap: Heap) returns (p: Peer?)
      requires ListValid() && cur.Length == SIZEOF_ENTRY
      modifies this`peers, this`tail, this`spine, heap, tail
      ensures ListValid()
      ensures old(heap.room) == 0 ==>
                p == null && heap.live == old(heap.live) && heap.room == 0 && spine == old(spine) && tail == old(tail)
      ensures old(heap.room) > 0 ==>
                p != null && fresh(p) && p.data == Decode(version, cur[..]) && tail == p
                && spine == old(spine) + [p] && heap.live == old(heap.live) + {p} && heap.room == old(heap.room) - 1
    {
      hide Decode, Contacts;
      p := MakePeer(heap);
      if p != null {
        Append(p);
      }
    }

    /**
     * The body of the record loop: fill the record under construction from buf, and make a
     * node of it if that completes it. n is how many bytes were copied.
     */
    method TakeRecord(heap: Heap, pos: nat, buf: Bytes) returns (n: nat, full: bool, p: Peer?)
      requires ListValid() && cur.Length == SIZEOF_ENTRY && pos < RecordSize(version)
      modifies this`peers, this`tail, this`spine, cur, heap, tail
      ensures ListValid()
      ensures n == Min(RecordSize(version) - pos, |buf|) && cur[..] == Blit(old(cur[..]), pos, buf[..n])
      ensures full <==> pos + n == RecordSize(version)
      ensures p == null ==>
                && heap.live == old(heap.live) && heap.room == old(heap.room) && (full ==> heap.room == 0)
                && spine == old(spine) && tail == old(tail)
      ensures p != null ==>
                && full && fresh(p) && p.data == Decode(version, cur[..]) && tail == p && spine == old(spine) + [p]
                && heap.live == old(heap.live) + {p} && old(heap.room) > 0 && heap.room == old(heap.room) - 1
    {
      hide Decode, Contacts, Blit, RecordSize, IsList;
      var rem := RecordSize(version) - pos;
      n := Min(rem, |buf|);
      Memcpy(cur, pos, buf[..n]);
      full := pos + n == RecordSize(version);
      p := null;
      if full {
        p := AddPeer(heap);
      }
    }

    /** The record loop of nd_parse_proc; added are the nodes it allocates and appends. */
    method RecordLoop(heap: Heap, input: Bytes)
      returns (pos: nat, nr: nat, consumed: nat, end: LoopEnd, ghost added: seq<Peer>)
      requires Valid() && headerParsed
      modifies this`peers, this`tail, this`spine, cur, heap, tail
      ensures ListValid() && spine == old(spine) + added && AllFresh(added)
      ensures heap.live == old(heap.live) + Nodes(added) && heap.room == old(heap.room) - |added|
      ensures Records(old(cur[..]), curPos, nrConsumed, nrTotal, version, input, old(heap.room)) ==
              Loop(cur[..], pos, nr, Contacts(added), consumed, end)
    {
      hide Records, Blit, RecordSize, Decode, Contacts, IsList, Nodes, ListValid, Continue;
      var buf := input;
      added := [];
      nr, pos, consumed := nrConsumed, curPos, 0;
      NoNodes();
      ContinueNothing(Records(cur[..], pos, nr, nrTotal, version, buf, heap.room));
      assert ListValid();
      while nr < nrTotal
        invariant ListValid() && cur.Length == SIZEOF_ENTRY && nr <= nrTotal && pos < RecordSize(version)
        invariant tail == old(tail) || (tail != null && fresh(tail))
        invariant spine == old(spine) + added && AllFresh(added)
        invariant heap.live == old(heap.live) + Nodes(added) && heap.room == old(heap.room) - |added|
        invariant Records(old(cur[..]), curPos, nrConsumed, nrTotal, version, input, old(heap.room)) ==
                  Continue(Contacts(added), consumed, Records(cur[..], pos, nr, nrTotal, version, buf, heap.room))
        decreases nrTotal - nr
      {
        ContinueOnce(Contacts(added), consumed, cur[..], pos, nr, nrTotal, version, buf, heap.room);
        var n, full, p := TakeRecord(heap, pos, buf);
        pos := pos + n;
        buf := buf[n..];
        if p == null {
          if full {
            end := NoMemory;
          } else {
            end := Partial;
            consumed := consumed + n;
          }
          return;
        }
        OneMoreNode(added, p);
        added := added + [p];
        pos := 0;
        consumed := consumed + n;
        nr := nr + 1;
      }
      ContinueOnce(Contacts(added), consumed, cur[..], pos, nr, nrTotal, version, buf, heap.room);
      end := Complete;
    }

    /** The part of nd_parse_proc behind the header. */
    method ProcBody(heap: Heap, buf: Bytes, hdr: nat) returns (ret: int, ghost added: seq<Peer>)
      requires Valid() && headerParsed
      modifies this, cur, heap, tail
      ensures Valid() && spine == old(spine) + added && AllFresh(added)
      ensures heap.live == old(heap.live) + Nodes(added)
      ensures ProcResult(Value(), ret, heap.room) == ProcRecords(old(Value()), buf, hdr, old(heap.room))
    {
      hide Records, IsList, ListValid, Nodes, RecordSize, ToInt32, Contacts;
      NoNodes();
      added := [];
      if version != 0 && version != 2 {
        Reject();
        return error, added;
      }
      ghost var spine0 := spine;
      var pos, nr, consumed, end;
      pos, nr, consumed, end, added := RecordLoop(heap, buf);
      JoinContacts(spine0, added);
      WriteBack(end, pos, nr);
      ret := ToInt32(hdr + consumed);
    }

    /** An unsupported version. */
    method Reject()
      requires ListValid()
      modifies this`error
      ensures ListValid() && Value() == old(Value()).(error := -EINVAL)
    {
      hide IsList, Contacts;
      error := -EINVAL;
    }

    /** How the loop leaves the context behind; a completed loop writes nothing back. */
    method WriteBack(end: LoopEnd, pos: nat, nr: nat)
      requires ListValid()
      modifies this`error, this`nrConsumed, this`curPos
      ensures ListValid()
      ensures Value() ==
              match end
              case Complete => old(Value())
              case Partial => old(Value()).(curPos := pos, nrConsumed := nr)
              case NoMemory => old(Value()).(error := -ENOMEM, curPos := 0, nrConsumed := nr)
    {
      hide IsList, Contacts;
      match end {
        case NoMemory =>
          error := -ENOMEM;
          nrConsumed := nr;
          curPos := 0;
        case Partial =>
          curPos := pos;
          nrConsumed := nr;
        case Complete =>
      }
    }

    /** nd_parse_proc. */
    method Process(heap: Heap, buf: Bytes) returns (ret: int, ghost added: seq<Peer>)
      requires Valid()
      modifies this, head, cur, heap, tail
      ensures Valid() && spine == old(spine) + added && AllFresh(added)
      ensures heap.live == old(heap.live) + Nodes(added)
      ensures ProcResult(Value(), ret, heap.room) == Proc(old(Value()), buf, old(heap.room))
    {
      hide ProcRecords, HeaderParser, IsList, Nodes, RecordSize, Contacts;
      NoNodes();
      added := [];
      if error < 0 {
        return error, added;
      }
      if |buf| == 0 {
        return 0, added;
      }
      var consumed := 0;
      if !headerParsed {
        consumed := ParseHeader(buf);
        if !headerParsed {
          return consumed, added;
        }
      }
      ret, added := ProcBody(heap, buf[consumed..], consumed);
    }

    /** nd_parse_get_peers; the nodes of the list handed over are taken. */
    method TakePeers() returns (p: Peer?, ghost taken: seq<Peer>)
      requires Valid()
      modifies this
      ensures Valid() && spine == [] && taken == old(spine) && IsList(p, taken)
      ensures Value() == GetPeers(old(Value()))
    {
      p, taken := peers, spine;
      peers, tail, spine := null, null, [];
    }

    /** nd_parse_destroy. */
    method Destroy(heap: Heap)
      requires Valid() && Nodes(spine) <= heap.live
      modifies this, heap, spine
      ensures ListValid() && spine == [] && Value() == old(Value()).(peers := [])
      ensures heap.live == old(heap.live) - Nodes(old(spine)) && heap.room == old(heap.room)
    {
      FreeKadPeers(heap, peers, spine);
      peers, tail, spine := null, null, [];
    }
  }

  lemma JoinContacts(a: seq<Peer>, b: seq<Peer>)
    ensures Contacts(a + b) == Contacts(a) + Contacts(b)
  {
  }

  twostate predicate AllFresh(new ps: seq<Peer>) {
    forall i :: 0 <= i < |ps| ==> fresh(ps[i])
  }

  /** A loop that has already made some peers. */
  ghost function Continue(made: seq<KadPeer>, consumed: nat, rest: Loop): Loop {
    rest.(made := made + rest.made, consumed := consumed + rest.consumed)
  }

  lemma ContinueNothing(l: Loop)
    ensures Continue([], 0, l) == l
  {
    assert [] + l.made == l.made;
  }

  /** One turn of the record loop, with some peers already made. */
  lemma ContinueOnce(made: seq<KadPeer>, consumed: nat, cur: Bytes, pos: nat, nr: nat, total: nat, version: int,
                     buf: Bytes, room: nat)
    requires |cur| == SIZEOF_ENTRY && pos < RecordSize(version) && nr <= total
    ensures Continue(made, consumed, Records(cur, pos, nr, total, version, buf, room)) ==
            if nr == total then Loop(cur, pos, nr, made, consumed, Complete)
            else
              var n := Min(RecordSize(version) - pos, |buf|);
              var cur' := Blit(cur, pos, buf[..n]);
              if pos + n < RecordSize(version) then Loop(cur', pos + n, nr, made, consumed + n, Partial)
              else if room == 0 then Loop(cur', pos + n, nr, made, consumed, NoMemory)
              else Continue(made + [Decode(version, cur')], consumed + n,
                            Records(cur', 0, nr + 1, total, version, buf[n..], room - 1))
  {
    hide Decode, Blit, RecordSize;
    assert made + [] == made;
    var n := Min(RecordSize(version) - pos, |buf|);
    if nr < total && pos + n == RecordSize(version) && room > 0 {
      var cur' := Blit(cur, pos, buf[..n]);
      var rest := Records(cur', 0, nr + 1, total, version, buf[n..], room - 1);
      assert made + ([Decode(version, cur')] + rest.made) == made + [Decode(version, cur')] + rest.made;
    }
  }

  lemma NoNodes()
    ensures Nodes([]) == {} && Contacts([]) == []
  {
  }

  lemma OneMoreNode(spine: seq<Peer>, p: Peer)
    ensures Nodes(spine + [p]) == Nodes(spine) + {p}
    ensures Contacts(spine + [p]) == Contacts(spine) + [p.data]
  {
  }
}

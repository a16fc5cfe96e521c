/**
 * A client of the parser, as nd_reader.c is one: it feeds chunks, takes lists away when it likes,
 * and releases everything at the end. At any time every allocated node is owned exactly once.
 */
module NodesDatSession {
  import opened ByteString
  import opened NodesDat
  import opened NodesDatRun
  import opened NodesDatTheorems
  import opened NodesDatCode

  /** The contacts of the lists taken so far, in the order they were taken. */
  ghost function Taken(spines: seq<seq<Peer>>): seq<KadPeer> {
    if spines == [] then [] else Contacts(spines[0]) + Taken(spines[1..])
  }

  lemma {:induction false} TakenSnoc(spines: seq<seq<Peer>>, s: seq<Peer>)
    ensures Taken(spines + [s]) == Taken(spines) + Contacts(s)
    decreases |spines|
  {
    hide Contacts;
    if spines == [] {
      assert [s][1..] == [];
      assert Taken([s]) == Contacts(s) + Taken([]);
    } else {
      assert (spines + [s])[1..] == spines[1..] + [s];
      TakenSnoc(spines[1..], s);
    }
  }

  /** Whether a node belongs to one of the lists. */
  ghost predicate InSome(p: Peer, spines: seq<seq<Peer>>) {
    exists i :: 0 <= i < |spines| && p in spines[i]
  }

  /** Every live node sits in the context's list or in one taken list, and nowhere else as well. */
  ghost predicate OwnedOnce(live: set<Peer>, held: seq<Peer>, spines: seq<seq<Peer>>) {
    && (forall p :: p in live ==> p in held || InSome(p, spines))
    && (forall p :: p in held ==> p in live && !InSome(p, spines))
    && (forall i, p :: 0 <= i < |spines| && p in spines[i] ==> p in live)
    && (forall i, j, p :: 0 <= i < j < |spines| && p in spines[i] ==> p !in spines[j])
  }

  lemma OwnMore(live: set<Peer>, held: seq<Peer>, spines: seq<seq<Peer>>, added: seq<Peer>)
    requires OwnedOnce(live, held, spines) && Nodes(added) !! live
    ensures OwnedOnce(live + Nodes(added), held + added, spines)
  {
    forall p | p in held + added
      ensures !InSome(p, spines)
    {
      if p in added { assert p in Nodes(added); }
    }
    assert forall p :: p in held + added <==> p in held || p in Nodes(added);
  }

  lemma OwnHandedOver(live: set<Peer>, held: seq<Peer>, spines: seq<seq<Peer>>)
    requires OwnedOnce(live, held, spines)
    ensures OwnedOnce(live, [], spines + [held])
  {
    var all := spines + [held];
    forall p | p in live
      ensures InSome(p, all) <==> p in held || InSome(p, spines)
    {
      if p in held { assert p in all[|spines|]; }
      if InSome(p, spines) {
        var i :| 0 <= i < |spines| && p in spines[i];
        assert p in all[i];
      }
    }
  }

  lemma OwnFirstFreed(live: set<Peer>, spines: seq<seq<Peer>>)
    requires OwnedOnce(live, [], spines) && spines != []
    ensures OwnedOnce(live - Nodes(spines[0]), [], spines[1..])
    ensures Nodes(spines[0]) <= live
  {
    var rest := spines[1..];
    forall p | p in live
      ensures InSome(p, spines) <==> p in spines[0] || InSome(p, rest)
      ensures InSome(p, rest) ==> p !in spines[0]
    {
      if InSome(p, spines) {
        var i :| 0 <= i < |spines| && p in spines[i];
        if i > 0 { assert p in rest[i - 1]; }
      }
      if InSome(p, rest) {
        var i :| 0 <= i < |rest| && p in rest[i];
        assert p in spines[i + 1];
      }
    }
  }

  lemma OwnHeldFreed(live: set<Peer>, held: seq<Peer>, spines: seq<seq<Peer>>)
    requires OwnedOnce(live, held, spines)
    ensures OwnedOnce(live - Nodes(held), [], spines) && Nodes(held) <= live
  {
  }

  lemma HeldIsNotTaken(live: set<Peer>, held: seq<Peer>, spines: seq<seq<Peer>>, p: Peer)
    requires OwnedOnce(live, held, spines) && p in held
    ensures forall i :: 0 <= i < |spines| ==> p !in spines[i]
  {
    assert !InSome(p, spines);
  }

  class Session {
    const ctx: NdParseCtx
    const heap: Heap
    var lists: seq<Peer?>
    ghost var spines: seq<seq<Peer>>
    /** The functional account of what has been done so far. */
    ghost var run: Run

    ghost predicate ListsValid()
      reads this, heap, heap.live
    {
      && |lists| == |spines|
      && (forall i, p :: 0 <= i < |spines| && p in spines[i] ==> p in heap.live)
      && (forall i :: 0 <= i < |lists| ==> IsList(lists[i], spines[i]))
    }

    ghost predicate Valid()
      reads this, ctx, ctx.head, ctx.cur, heap, heap.live
    {
      && Nodes(ctx.spine) <= heap.live && ListsValid()
      && OwnedOnce(heap.live, ctx.spine, spines)
      && ctx.Valid() && ctx.Value() == run.st && heap.room == run.room && Taken(spines) == run.drained
    }

    constructor (room: nat)
      ensures Valid() && fresh(ctx) && fresh(ctx.head) && fresh(ctx.cur) && fresh(heap) && fresh(heap.live)
      ensures run == Start(ctx.head[..], ctx.cur[..], room)
    {
      var c := new NdParseCtx();
      var h := new Heap(room);
      ctx, heap := c, h;
      lists, spines := [], [];
      run := Start(c.head[..], c.cur[..], room);
    }

    method FeedChunk(chunk: Bytes) returns (ret: int)
      requires Valid()
      modifies this, ctx, ctx.head, ctx.cur, heap, heap.live
      ensures Valid() && fresh(heap.live - old(heap.live))
      ensures run == Step(old(run), Feed(chunk)) && ret == Proc(old(run.st), chunk, old(run.room)).ret
    {
      hide IsList, OwnedOnce, Contacts, Proc, Taken;
      ghost var held, live := ctx.spine, heap.live;
      ghost var added;
      if ctx.tail != null { HeldIsNotTaken(live, held, spines, ctx.tail); }
      ret, added := ctx.Process(heap, chunk);
      OwnMore(live, held, spines, added);
      run := Step(run, Feed(chunk));
    }

    method DrainList()
      requires Valid()
      modifies this, ctx
      ensures Valid() && heap.live == old(heap.live)
      ensures run == Step(old(run), Drain)
      ensures |lists| == |old(lists)| + 1 && lists[..|old(lists)|] == old(lists)
    {
      hide IsList, OwnedOnce, Contacts, Taken;
      OwnHandedOver(heap.live, ctx.spine, spines);
      TakenSnoc(spines, ctx.spine);
      ghost var held := ctx.spine;
      var p;
      ghost var taken;
      p, taken := ctx.TakePeers();
      lists := lists + [p];
      spines := spines + [taken];
      run := Step(run, Drain);
      NoNodes();
    }

    /** The contacts of all lists taken so far. */
    method ReadLists() returns (cs: seq<KadPeer>)
      requires Valid()
      ensures cs == run.drained
    {
      hide IsList, OwnedOnce, Contacts, Taken;
      cs := [];
      NothingTaken();
      var i := 0;
      while i < |lists|
        invariant i <= |lists| && cs == Taken(spines[..i])
      {
        TakenStep(spines, i);
        var more := ReadList(lists[i], spines[i]);
        cs := cs + more;
        i := i + 1;
      }
      assert spines[..i] == spines;
    }

    /** nd_parse_destroy; the lists taken are not affected. */
    method ReleaseHeld()
      requires Valid()
      modifies ctx, heap, heap.live
      ensures ListsValid() && OwnedOnce(heap.live, [], spines) && heap.live <= old(heap.live)
    {
      hide OwnedOnce, Contacts, Taken;
      OwnHeldFreed(heap.live, ctx.spine, spines);
      TakenAvoidHeld(heap.live, ctx.spine, spines);
      ctx.Destroy(heap);
      forall i, p | 0 <= i < |spines| && p in spines[i]
        ensures p.next == old(p.next)
      {
        assert old(allocated(p)) && p !in old(ctx.spine);
      }
    }

    /** free_kad_peers on the list taken first; the other lists are not affected. */
    method ReleaseFirst()
      requires ListsValid() && OwnedOnce(heap.live, [], spines) && |lists| > 0
      modifies this, heap, heap.live
      ensures ListsValid() && OwnedOnce(heap.live, [], spines) && heap.live <= old(heap.live)
      ensures lists == old(lists)[1..]
    {
      hide OwnedOnce;
      OwnFirstFreed(heap.live, spines);
      FirstAvoidsRest(heap.live, spines);
      FreeKadPeers(heap, lists[0], spines[0]);
      lists := lists[1..];
      spines := spines[1..];
      forall i, p | 0 <= i < |spines| && p in spines[i]
        ensures p.next == old(p.next)
      {
        assert p in old(spines)[i + 1] && old(allocated(p)) && p !in old(spines)[0];
      }
    }

    /**
     * nd_parse_destroy and free_kad_peers on every list taken: afterwards nothing is allocated, and
     * since only allocated nodes can be freed, every node has been released exactly once.
     */
    method Close()
      requires Valid()
      modifies this, ctx, heap, heap.live
      ensures heap.live == {}
    {
      hide IsList, OwnedOnce, Contacts, Taken;
      ReleaseHeld();
      while |lists| > 0
        invariant ListsValid() && OwnedOnce(heap.live, [], spines) && heap.live <= old(heap.live)
        decreases |lists|
      {
        ReleaseFirst();
      }
      NothingLeft(heap.live, spines);
    }
  }

  lemma NothingTaken()
    ensures Taken([]) == []
  {
  }

  lemma TakenAvoidHeld(live: set<Peer>, held: seq<Peer>, spines: seq<seq<Peer>>)
    requires OwnedOnce(live, held, spines)
    ensures forall i, p :: 0 <= i < |spines| && p in spines[i] ==> p !in held && p in live
  {
    forall i, p | 0 <= i < |spines| && p in spines[i]
      ensures p !in held
    {
      assert InSome(p, spines);
    }
  }

  lemma FirstAvoidsRest(live: set<Peer>, spines: seq<seq<Peer>>)
    requires OwnedOnce(live, [], spines) && spines != []
    ensures forall i, p :: 0 < i < |spines| && p in spines[i] ==> p !in spines[0] && p in live
  {
  }

  lemma NothingLeft(live: set<Peer>, spines: seq<seq<Peer>>)
    requires OwnedOnce(live, [], spines) && spines == []
    ensures live == {}
  {
  }

  /** Walking a list, as print_kad_peers of nd_reader.c does. */
  method ReadList(first: Peer?, ghost spine: seq<Peer>) returns (cs: seq<KadPeer>)
    requires IsList(first, spine)
    ensures cs == Contacts(spine)
  {
    cs := [];
    var peer := first;
    ghost var k := 0;
    while peer != null
      invariant k <= |spine| && peer == (if k < |spine| then spine[k] else null)
      invariant cs == Contacts(spine)[..k]
      decreases |spine| - k
    {
      cs := cs + [peer.data];
      peer := peer.next;
      k := k + 1;
    }
  }

  lemma {:induction false} TakenStep(spines: seq<seq<Peer>>, k: nat)
    requires k < |spines|
    ensures Taken(spines[..k + 1]) == Taken(spines[..k]) + Contacts(spines[k])
  {
    hide Contacts;
    assert spines[..k + 1] == spines[..k] + [spines[k]];
    TakenSnoc(spines[..k], spines[k]);
  }

  /** Any calls in any order on a new session. */
  method RunOps(s: Session, ops: seq<Op>)
    requires s.Valid()
    modifies s, s.ctx, s.ctx.head, s.ctx.cur, s.heap, s.heap.live
    ensures s.Valid() && fresh(s.heap.live - old(s.heap.live))
    ensures s.run == Steps(old(s.run), ops)
  {
    hide Step;
    var i := 0;
    assert ops[0..] == ops;
    while i < |ops|
      invariant i <= |ops| && s.Valid() && fresh(s.heap.live - old(s.heap.live))
      invariant Steps(s.run, ops[i..]) == Steps(old(s.run), ops)
    {
      assert ops[i..][0] == ops[i] && ops[i..][1..] == ops[i + 1..];
      match ops[i] {
        case Feed(c) =>
          var ret := s.FeedChunk(c);
        case Drain =>
          s.DrainList();
      }
      i := i + 1;
    }
  }

  /**
   * A whole life of a parser: any calls in any order, one last list, everything read, everything
   * released. Nothing is leaked or freed twice, whatever was fed; and if nothing was fed behind the
   * end of the file, exactly its first contacts have been delivered, as many as memory allowed.
   */
  method RunSession(ops: seq<Op>, room: nat) returns (delivered: seq<KadPeer>, s: Session)
    ensures fresh(s) && s.heap.live == {}
    ensures Feedable([], ops) ==> delivered == PeersOf(Fed(ops))[..Min(room, |PeersOf(Fed(ops))|)]
  {
    hide Step, Steps, Feedable, Fed, Header, PeersOf;
    s := new Session(room);
    ghost var head, cur := s.ctx.head[..], s.ctx.cur[..];
    RunOps(s, ops);
    ghost var r := s.run;
    s.DrainList();
    DrainedAll(r);
    delivered := s.ReadLists();
    s.Close();
    if Feedable([], ops) {
      MemoryExactly(head, cur, room, ops);
    }
  }

  lemma DrainedAll(r: Run)
    requires r.st.Valid()
    ensures Step(r, Drain).drained == r.All()
  {
  }
}

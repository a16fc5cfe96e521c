/** A writer of nodes.dat files, the reference the parser has to invert. */
module NodesDatFile {
  import opened ByteString
  import opened NodesDat
  import opened NodesDatRun
  import opened NodesDatTheorems

  function Le16Bytes(n: nat): Bytes
    requires n < 0x1_0000
  {
    [n % 0x100, n / 0x100]
  }

  function Le32Bytes(n: nat): (r: Bytes)
    requires n < U32
    ensures |r| == 4
  {
    [n % 0x100, n / 0x100 % 0x100, n / 0x1_0000 % 0x100, n / 0x100_0000]
  }

  lemma Le16RoundTrip(n: nat)
    requires n < 0x1_0000
    ensures Le16(Le16Bytes(n)) == n
  {
  }

  lemma Le32RoundTrip(n: nat)
    requires n < U32
    ensures Le32(Le32Bytes(n)) == n
  {
    var a, b := n / 0x100, n / 0x1_0000;
    assert b == a / 0x100 && n / 0x100_0000 == b / 0x100;
  }

  /** A contact the record layouts can hold. */
  predicate Storable(p: KadPeer) {
    && |p.client_id| == 16 && |p.ip_addr| == 4 && |p.kad_udp_key| == 8
    && p.tcp_port < 0x1_0000 && p.udp_port < 0x1_0000
  }

  /** A contact version 0 can hold: everything it lacks is zero. */
  predicate StorableV0(p: KadPeer) {
    Storable(p) && p.version == 0 && p.verified == 0 && p.kad_udp_key == [0, 0, 0, 0, 0, 0, 0, 0]
  }

  /** struct nd_entry. */
  function EntryBytes(p: KadPeer): (r: Bytes)
    requires Storable(p)
    ensures |r| == SIZEOF_ENTRY
  {
    p.client_id + p.ip_addr + Le16Bytes(p.tcp_port) + Le16Bytes(p.udp_port)
    + [p.version] + p.kad_udp_key + [p.verified]
  }

  /** struct nd_entry_v0; kind is the type byte the parser drops. */
  function EntryV0Bytes(p: KadPeer, kind: Byte): (r: Bytes)
    requires Storable(p)
    ensures |r| == SIZEOF_ENTRY_V0
  {
    p.client_id + p.ip_addr + Le16Bytes(p.tcp_port) + Le16Bytes(p.udp_port) + [kind]
  }

  lemma SharedFields(p: KadPeer, tail: Bytes)
    requires Storable(p)
    ensures var e := p.client_id + p.ip_addr + Le16Bytes(p.tcp_port) + Le16Bytes(p.udp_port) + tail;
            && |e| == 24 + |tail| && e[0..16] == p.client_id && e[16..20] == p.ip_addr
            && e[20..22] == Le16Bytes(p.tcp_port) && e[22..24] == Le16Bytes(p.udp_port) && e[24..] == tail
  {
    hide Le16Bytes;
    assert |Le16Bytes(p.tcp_port)| == 2 && |Le16Bytes(p.udp_port)| == 2 by {
      Le16Length(p.tcp_port);
      Le16Length(p.udp_port);
    }
  }

  lemma Le16Length(n: nat)
    requires n < 0x1_0000
    ensures |Le16Bytes(n)| == 2
  {
  }

  lemma EntryRoundTrip(p: KadPeer)
    requires Storable(p)
    ensures MkKadPeer(EntryBytes(p)) == p
  {
    hide Le16, Le16Bytes;
    var tail := [p.version] + p.kad_udp_key + [p.verified];
    var e := EntryBytes(p);
    SharedFields(p, tail);
    assert e == p.client_id + p.ip_addr + Le16Bytes(p.tcp_port) + Le16Bytes(p.udp_port) + tail;
    assert e[25..33] == e[24..][1..9] == p.kad_udp_key;
    assert e[24] == e[24..][0] && e[33] == e[24..][9];
    Le16RoundTrip(p.tcp_port);
    Le16RoundTrip(p.udp_port);
  }

  lemma EntryV0RoundTrip(p: KadPeer, kind: Byte)
    requires StorableV0(p)
    ensures MkKadPeerV0(EntryV0Bytes(p, kind)) == p
  {
    hide Le16, Le16Bytes;
    SharedFields(p, [kind]);
    Le16RoundTrip(p.tcp_port);
    Le16RoundTrip(p.udp_port);
  }

  // Whole files.

  function Concat(rs: seq<Bytes>): Bytes {
    if rs == [] then [] else rs[0] + Concat(rs[1..])
  }

  /** Equal-sized records come apart again, whatever follows them. */
  lemma {:induction false} ChopConcat(rs: seq<Bytes>, g: nat, trail: Bytes)
    requires g > 0 && forall k :: 0 <= k < |rs| ==> |rs[k]| == g
    ensures Chop(Concat(rs) + trail, g, |rs|) == rs
    decreases |rs|
  {
    var d := Concat(rs) + trail;
    if rs != [] {
      ChopConcat(rs[1..], g, trail);
      assert d[..g] == rs[0] && d[g..] == Concat(rs[1..]) + trail;
      assert rs == [rs[0]] + rs[1..];
    }
  }

  predicate AllStorable(ps: seq<KadPeer>) {
    |ps| < U32 && forall i :: 0 <= i < |ps| ==> Storable(ps[i])
  }

  /** A version-0 file cannot declare zero records: that is how later versions are told apart. */
  predicate AllStorableV0(ps: seq<KadPeer>, kinds: seq<Byte>) {
    0 < |ps| == |kinds| < U32 && forall i :: 0 <= i < |ps| ==> StorableV0(ps[i])
  }

  function RecordsV2(ps: seq<KadPeer>): (rs: seq<Bytes>)
    requires AllStorable(ps)
    ensures |rs| == |ps| && forall i :: 0 <= i < |rs| ==> rs[i] == EntryBytes(ps[i]) && |rs[i]| == SIZEOF_ENTRY
  {
    seq(|ps|, i requires 0 <= i < |ps| => EntryBytes(ps[i]))
  }

  function RecordsV0(ps: seq<KadPeer>, kinds: seq<Byte>): (rs: seq<Bytes>)
    requires AllStorableV0(ps, kinds)
    ensures |rs| == |ps|
    ensures forall i :: 0 <= i < |rs| ==>
              StorableV0(ps[i]) && rs[i] == EntryV0Bytes(ps[i], kinds[i]) && |rs[i]| == SIZEOF_ENTRY_V0
  {
    seq(|ps|, i requires 0 <= i < |ps| => assert StorableV0(ps[i]); EntryV0Bytes(ps[i], kinds[i]))
  }

  function FileV2(ps: seq<KadPeer>): Bytes
    requires AllStorable(ps)
  {
    Le32Bytes(0) + Le32Bytes(2) + Le32Bytes(|ps|) + Concat(RecordsV2(ps))
  }

  function FileV0(ps: seq<KadPeer>, kinds: seq<Byte>): Bytes
    requires AllStorableV0(ps, kinds)
  {
    Le32Bytes(|ps|) + Concat(RecordsV0(ps, kinds))
  }

  lemma HeaderV2(n: nat, rest: Bytes)
    requires n < U32
    ensures Header(Le32Bytes(0) + Le32Bytes(2) + Le32Bytes(n) + rest) == Some(Head(12, 2, n))
  {
    hide Le32, Le32Bytes;
    var b := Le32Bytes(0) + Le32Bytes(2) + Le32Bytes(n) + rest;
    assert b[..4] == Le32Bytes(0) && b[4..8] == Le32Bytes(2) && b[8..12] == Le32Bytes(n);
    Le32RoundTrip(0);
    Le32RoundTrip(2);
    Le32RoundTrip(n);
  }

  lemma HeaderV0(n: nat, rest: Bytes)
    requires 0 < n < U32
    ensures Header(Le32Bytes(n) + rest) == Some(Head(4, 0, n))
  {
    hide Le32, Le32Bytes;
    assert (Le32Bytes(n) + rest)[..4] == Le32Bytes(n);
    Le32RoundTrip(n);
  }

  lemma {:induction false} FileV2IsRead(ps: seq<KadPeer>, trail: Bytes)
    requires AllStorable(ps)
    ensures PeersOf(FileV2(ps) + trail) == ps && IsComplete(FileV2(ps) + trail)
  {
    hide Header, Le32Bytes, EntryBytes, MkKadPeer;
    var rs := RecordsV2(ps);
    var hd := Le32Bytes(0) + Le32Bytes(2) + Le32Bytes(|ps|);
    var b := FileV2(ps) + trail;
    assert b == hd + (Concat(rs) + trail);
    HeaderV2(|ps|, Concat(rs) + trail);
    assert b[12..] == Concat(rs) + trail;
    ChopConcat(rs, SIZEOF_ENTRY, trail);
    ChopFullIff(b[12..], SIZEOF_ENTRY, |ps|);
    forall i | 0 <= i < |ps|
      ensures Decode(2, rs[i]) == ps[i]
    {
      EntryRoundTrip(ps[i]);
    }
    assert DecodeAll(2, rs) == ps;
  }

  lemma {:induction false} FileV0IsRead(ps: seq<KadPeer>, kinds: seq<Byte>, trail: Bytes)
    requires AllStorableV0(ps, kinds)
    ensures PeersOf(FileV0(ps, kinds) + trail) == ps && IsComplete(FileV0(ps, kinds) + trail)
  {
    hide Header, Le32Bytes, EntryV0Bytes, MkKadPeerV0;
    var rs := RecordsV0(ps, kinds);
    var b := FileV0(ps, kinds) + trail;
    assert b == Le32Bytes(|ps|) + (Concat(rs) + trail);
    HeaderV0(|ps|, Concat(rs) + trail);
    assert b[4..] == Concat(rs) + trail;
    ChopConcat(rs, SIZEOF_ENTRY_V0, trail);
    ChopFullIff(b[4..], SIZEOF_ENTRY_V0, |ps|);
    forall i | 0 <= i < |ps|
      ensures Decode(0, rs[i]) == ps[i]
    {
      EntryV0RoundTrip(ps[i], kinds[i]);
    }
    assert DecodeAll(0, rs) == ps;
  }

  /**
   * Write any contacts as a version-2 file, cut the file into any chunks, drain at any time:
   * the contacts come back, in order, and the counts returned add up to the whole file size
   * as long as they fit the int.
   */
  lemma {:induction false} AnyDivisionReadsV2(head: Bytes, cur: Bytes, room: nat, ops: seq<Op>, ps: seq<KadPeer>)
    requires |head| == SIZEOF_HEADER && |cur| == SIZEOF_ENTRY && Feedable([], ops)
    requires AllStorable(ps) && Fed(ops) == FileV2(ps)
    ensures var r := Steps(Start(head, cur, room), ops);
            r.st.error != -ENOMEM ==>
              r.st.error == 0 && r.All() == ps && (SmallChunks(ops) ==> r.returned == |FileV2(ps)|)
  {
    hide Steps, Feedable, Fed, SmallChunks, FileV2, PeersOf, Header;
    assert FileV2(ps) + [] == FileV2(ps);
    FileV2IsRead(ps, []);
    SizeV2(ps);
    ChunkingInvariance(head, cur, room, ops);
    ByteConservation(head, cur, room, ops);
  }

  /** The same for version 0. */
  lemma {:induction false} AnyDivisionReadsV0(
    head: Bytes, cur: Bytes, room: nat, ops: seq<Op>, ps: seq<KadPeer>, kinds: seq<Byte>)
    requires |head| == SIZEOF_HEADER && |cur| == SIZEOF_ENTRY && Feedable([], ops)
    requires AllStorableV0(ps, kinds) && Fed(ops) == FileV0(ps, kinds)
    ensures var r := Steps(Start(head, cur, room), ops);
            r.st.error != -ENOMEM ==>
              r.st.error == 0 && r.All() == ps && (SmallChunks(ops) ==> r.returned == |FileV0(ps, kinds)|)
  {
    hide Steps, Feedable, Fed, SmallChunks, FileV0, PeersOf, Header;
    assert FileV0(ps, kinds) + [] == FileV0(ps, kinds);
    FileV0IsRead(ps, kinds, []);
    SizeV0(ps, kinds);
    ChunkingInvariance(head, cur, room, ops);
    ByteConservation(head, cur, room, ops);
  }

  lemma {:induction false} ConcatSize(rs: seq<Bytes>, g: nat)
    requires forall k :: 0 <= k < |rs| ==> |rs[k]| == g
    ensures |Concat(rs)| == |rs| * g
    decreases |rs|
  {
    if rs != [] {
      ConcatSize(rs[1..], g);
      assert |rs| * g == (|rs| - 1) * g + g;
    }
  }

  lemma SizeV2(ps: seq<KadPeer>)
    requires AllStorable(ps)
    ensures Header(FileV2(ps)) == Some(Head(12, 2, |ps|)) && |FileV2(ps)| == FileSize(Head(12, 2, |ps|))
  {
    hide Header, Le32Bytes, EntryBytes;
    var rs := RecordsV2(ps);
    HeaderV2(|ps|, Concat(rs));
    ConcatSize(rs, SIZEOF_ENTRY);
  }

  lemma SizeV0(ps: seq<KadPeer>, kinds: seq<Byte>)
    requires AllStorableV0(ps, kinds)
    ensures Header(FileV0(ps, kinds)) == Some(Head(4, 0, |ps|)) && |FileV0(ps, kinds)| == FileSize(Head(4, 0, |ps|))
  {
    hide Header, Le32Bytes, EntryV0Bytes;
    var rs := RecordsV0(ps, kinds);
    HeaderV0(|ps|, Concat(rs));
    ConcatSize(rs, SIZEOF_ENTRY_V0);
  }
}

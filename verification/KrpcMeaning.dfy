/** What krpc_msg_parse makes of every datagram, in terms of the entries of its top-level dictionary. */
module KrpcMeaning {
  import opened ByteString
  import opened BencodeTree
  import opened BenrToken
  import opened BenrSkip
  import opened BenrIter
  import opened BenrRoundTrip
  import opened BenrSyntax
  import opened Krpc
  import opened KrpcScan

  /** What one call of the iterator tells about a value; nothing is known of a container's contents. */
  datatype Top = TopInteger(i: int) | TopText(bytes: Bytes) | TopList | TopDict

  /** A key that is no string is None: the loop passes over it. */
  datatype TopEntry = TopEntry(key: Option<Bytes>, val: Top)

  function TokenTop(mem: Bytes, b: Benr): Top
    requires Within(mem, b)
  {
    match b
    case BInt(i) => TopInteger(i)
    case BString(s, n) => TopText(mem[s..s + n])
    case BList(_) => TopList
    case _ => TopDict
  }

  function TokenKey(mem: Bytes, b: Benr): Option<Bytes>
    requires Within(mem, b)
  {
    if b.BString? then Some(mem[b.start..b.start + b.len]) else None
  }

  /** The entries up to the end of the dictionary or a value that is never closed; None if there is neither. */
  function TopEntries(mem: Bytes, p: nat, hi: nat): Option<seq<TopEntry>>
    requires p <= hi <= |mem|
    decreases hi - p
  {
    match DictNext(mem, p, hi)
    case DictStop(_, _) => Some([])
    case Pair(k, v, q) =>
      if !Advances(k) || !Advances(v) then None
      else
        var rest := TopEntries(mem, q, hi);
        if rest.None? then None else Some([TopEntry(TokenKey(mem, k), TokenTop(mem, v))] + rest.value)
  }

  /** The value of the last entry under the key. */
  function LastTop(es: seq<TopEntry>, key: Bytes): Option<Top> {
    if es == [] then None
    else if LastTop(es[1..], key).Some? then LastTop(es[1..], key)
    else if es[0].key == Some(key) then Some(es[0].val)
    else None
  }

  /** The token stands for the value. */
  predicate Denotes(mem: Bytes, b: Benr, v: Option<Top>) {
    match v
    case None => b == BNone
    case Some(TopInteger(i)) => b == BInt(i)
    case Some(TopText(s)) => b.BString? && b.start + b.len <= |mem| && mem[b.start..b.start + b.len] == s
    case Some(TopList) => b.BList? && Within(mem, b)
    case Some(TopDict) => b.BDict? && Within(mem, b)
  }

  lemma TokenDenotes(mem: Bytes, p: nat, hi: nat)
    requires p <= hi <= |mem| && DictNext(mem, p, hi).Pair? && Advances(DictNext(mem, p, hi).v)
    ensures var b := DictNext(mem, p, hi).v; Within(mem, b) && Denotes(mem, b, Some(TokenTop(mem, b)))
  {
    hide Next, SkipFrom;
    PairOrStop(mem, p, hi);
    TokenKinds(DictNext(mem, p, hi).v);
  }

  lemma TokenKinds(b: Benr)
    requires Advances(b)
    ensures b.BInt? || b.BString? || b.BEnd? || b.BUint? || IsContainer(b)
  {
  }

  lemma StoreSets(mem: Bytes, s: Slots, k: Benr, v: Benr, c: Byte)
    requires Within(mem, k) && IsLetter(c)
    ensures Slot(Store(mem, s, k, v), c) == if TokenKey(mem, k) == Some([c]) then v else Slot(s, c)
  {
    if k.BString? && k.len == 1 { assert mem[k.start..k.start + k.len] == [mem[k.start]]; }
  }

  lemma LastOfCons(e: TopEntry, rest: seq<TopEntry>, key: Bytes)
    ensures LastTop([e] + rest, key) ==
            if LastTop(rest, key).Some? then LastTop(rest, key) else if e.key == Some(key) then Some(e.val) else None
  {
    assert ([e] + rest)[1..] == rest;
  }

  /**
   * On every input the scan ends if and only if there is a list of entries; then each slot holds the
   * last entry under its letter, or what was there before.
   */
  lemma {:induction false} ScanKeepsLast(
    mem: Bytes, p: nat, hi: nat, s: Slots, c: Byte, was: Option<Top>)
    requires p <= hi <= |mem| && IsLetter(c) && Denotes(mem, Slot(s, c), was)
    ensures ScanDict(mem, p, hi, s).Some? <==> TopEntries(mem, p, hi).Some?
    ensures TopEntries(mem, p, hi).Some? ==>
              var last := LastTop(TopEntries(mem, p, hi).value, [c]);
              Denotes(mem, Slot(ScanDict(mem, p, hi, s).value, c), if last.Some? then last else was)
    decreases hi - p
  {
    hide Next, DictNext, Store, Slot, Denotes, IsLetter, LastTop, TokenTop, TokenKey;
    NoLastTop([c]);
    match DictNext(mem, p, hi)
    case DictStop(_, _) =>
    case Pair(k, v, q) =>
      if Advances(k) {
        if Advances(v) {
          TokenDenotes(mem, p, hi);
          StoreSets(mem, s, k, v, c);
          var e := TopEntry(TokenKey(mem, k), TokenTop(mem, v));
          ScanKeepsLast(mem, q, hi, Store(mem, s, k, v), c, if e.key == Some([c]) then Some(e.val) else was);
          var rest := TopEntries(mem, q, hi);
          if rest.Some? { LastOfCons(e, rest.value, [c]); }
        } else {
          StuckValue(mem, p, hi);
        }
      }
  }

  lemma NoLastTop(key: Bytes)
    ensures LastTop([], key) == None
  {
  }

  /** After an error or the end of the input in place of a value, the next call finds it in place of a key. */
  lemma StuckValue(mem: Bytes, p: nat, hi: nat)
    requires p <= hi <= |mem| && DictNext(mem, p, hi).Pair? && !Advances(DictNext(mem, p, hi).v)
    ensures var q := DictNext(mem, p, hi).next; DictNext(mem, q, hi).Pair? && !Advances(DictNext(mem, q, hi).k)
  {
    hide Next, SkipFrom;
  }

  /** krpc_msg_parse in terms of the entries it is given. */
  function KindOf(y: Option<Top>): KrpcType {
    match y
    case Some(TopText(s)) =>
      if s == [LETTER_E] then KtError
      else if s == [LETTER_Q] then KtQuery
      else if s == [LETTER_R] then KtResponse
      else KtNone
    case _ => KtNone
  }

  function QueryOf(q: Option<Top>): Option<KrpcQuery> {
    match q
    case Some(TopText(s)) => QueryNamed(s)
    case _ => None
  }

  function Meaning(es: seq<TopEntry>, msg: Msg): Msg {
    var kind := KindOf(LastTop(es, [LETTER_Y]));
    var query := if kind.KtQuery? || kind.KtResponse? then QueryOf(LastTop(es, [LETTER_Q])) else None;
    Msg(kind, if query.Some? then query.value else msg.query)
  }

  lemma DenotedKind(mem: Bytes, b: Benr, v: Option<Top>)
    requires Denotes(mem, b, v)
    ensures Within(mem, b) && ParseY(mem, b) == KindOf(v) && ParseQuery(mem, b) == QueryOf(v)
  {
    hide QueryNamed;
    if b.BString? && b.len == 1 { assert mem[b.start..b.start + b.len] == [mem[b.start]]; }
  }

  lemma {:induction false} SlotOfLetter(mem: Bytes, p: nat, hi: nat, c: Byte)
    requires p <= hi <= |mem| && IsLetter(c)
    ensures match TopEntries(mem, p, hi)
            case None => ScanDict(mem, p, hi, EMPTY_SLOTS) == None
            case Some(es) =>
              && ScanDict(mem, p, hi, EMPTY_SLOTS).Some?
              && Denotes(mem, Slot(ScanDict(mem, p, hi, EMPTY_SLOTS).value, c), LastTop(es, [c]))
  {
    hide Denotes, ScanDict, TopEntries;
    EmptySlotDenotes(mem, c);
    ScanKeepsLast(mem, p, hi, EMPTY_SLOTS, c, None);
  }

  lemma LetterTexts()
    ensures Ascii("a") == [LETTER_A] && Ascii("e") == [LETTER_E] && Ascii("q") == [LETTER_Q]
    ensures Ascii("r") == [LETTER_R] && Ascii("t") == [LETTER_T] && Ascii("v") == [LETTER_V]
    ensures Ascii("y") == [LETTER_Y]
  {
  }

  lemma SlotsByLetter(s: Slots)
    ensures Slot(s, LETTER_A) == s.a && Slot(s, LETTER_E) == s.e && Slot(s, LETTER_Q) == s.q
    ensures Slot(s, LETTER_R) == s.r && Slot(s, LETTER_T) == s.t && Slot(s, LETTER_V) == s.v
    ensures Slot(s, LETTER_Y) == s.y
  {
  }

  /** The slots the scan of a message ends with: each holds the last entry under its key, whatever the others are. */
  lemma {:induction false} MessageSlots(mem: Bytes, p: nat, hi: nat)
    requires p <= hi <= |mem|
    ensures match TopEntries(mem, p, hi)
            case None => ScanDict(mem, p, hi, EMPTY_SLOTS) == None
            case Some(es) =>
              && ScanDict(mem, p, hi, EMPTY_SLOTS).Some?
              && var s := ScanDict(mem, p, hi, EMPTY_SLOTS).value;
                && Denotes(mem, s.a, LastTop(es, Ascii("a"))) && Denotes(mem, s.e, LastTop(es, Ascii("e")))
                && Denotes(mem, s.q, LastTop(es, Ascii("q"))) && Denotes(mem, s.r, LastTop(es, Ascii("r")))
                && Denotes(mem, s.t, LastTop(es, Ascii("t"))) && Denotes(mem, s.v, LastTop(es, Ascii("v")))
                && Denotes(mem, s.y, LastTop(es, Ascii("y")))
  {
    hide Denotes, ScanDict, TopEntries, Slot, LastTop, Ascii;
    LetterTexts();
    SlotOfLetter(mem, p, hi, LETTER_A);
    SlotOfLetter(mem, p, hi, LETTER_E);
    SlotOfLetter(mem, p, hi, LETTER_Q);
    SlotOfLetter(mem, p, hi, LETTER_R);
    SlotOfLetter(mem, p, hi, LETTER_T);
    SlotOfLetter(mem, p, hi, LETTER_V);
    SlotOfLetter(mem, p, hi, LETTER_Y);
    if ScanDict(mem, p, hi, EMPTY_SLOTS).Some? { SlotsByLetter(ScanDict(mem, p, hi, EMPTY_SLOTS).value); }
  }

  lemma EmptySlotDenotes(mem: Bytes, c: Byte)
    ensures Denotes(mem, Slot(EMPTY_SLOTS, c), None)
  {
  }

  lemma DictInit(mem: Bytes, p: nat, hi: nat)
    requires p <= hi <= |mem| && Init(mem, p, hi).BDict?
    ensures p < hi && Init(mem, p, hi) == BDict(Span(p + 1, hi - (p + 1)))
  {
    hide Next;
  }

  /**
   * krpc_msg_parse on every datagram: a dictionary without an end of its entries hangs; otherwise the
   * type and the query kind depend on nothing but the last "y" and the last "q" entry.
   */
  lemma {:induction false} ParseMeaning(mem: Bytes, p: nat, hi: nat, msg: Msg)
    requires p <= hi <= |mem|
    ensures Init(mem, p, hi).BDict? ==> p < hi
    ensures Parse(mem, p, hi, msg) ==
            if !Init(mem, p, hi).BDict? then Returns(-1, msg)
            else match TopEntries(mem, p + 1, hi)
                 case None => Hangs
                 case Some(es) => Returns(-1, Meaning(es, msg))
  {
    hide ScanDict, TopEntries, Init, Denotes, ParseY, ParseQuery, KindOf, QueryOf, LastTop;
    if Init(mem, p, hi).BDict? {
      DictInit(mem, p, hi);
      SlotOfLetter(mem, p + 1, hi, LETTER_Y);
      SlotOfLetter(mem, p + 1, hi, LETTER_Q);
      ScanStaysWithin(mem, p + 1, hi, EMPTY_SLOTS);
      if TopEntries(mem, p + 1, hi).Some? {
        var s := ScanDict(mem, p + 1, hi, EMPTY_SLOTS).value;
        var es := TopEntries(mem, p + 1, hi).value;
        assert Slot(s, LETTER_Y) == s.y && Slot(s, LETTER_Q) == s.q;
        DenotedKind(mem, s.y, LastTop(es, [LETTER_Y]));
        DenotedKind(mem, s.q, LastTop(es, [LETTER_Q]));
      }
    }
  }

  // The same in the words of BEP 5.

  /** The message type a "y" entry gives. */
  predicate KindIs(y: Option<Top>, kind: KrpcType) {
    && (kind == KtQuery <==> y == Some(TopText(Ascii("q"))))
    && (kind == KtResponse <==> y == Some(TopText(Ascii("r"))))
    && (kind == KtError <==> y == Some(TopText(Ascii("e"))))
  }

  /** The query kind a "q" entry gives; without one of the four names it stays what it was. */
  predicate QueryIs(q: Option<Top>, was: KrpcQuery, query: KrpcQuery) {
    && (q == Some(TopText(Ascii("ping"))) ==> query == KqPing)
    && (q == Some(TopText(Ascii("find_node"))) ==> query == KqFindNode)
    && (q == Some(TopText(Ascii("get_peers"))) ==> query == KqGetPeers)
    && (q == Some(TopText(Ascii("announce_peer"))) ==> query == KqAnnouncePeer)
    && (query == was || q == Some(TopText(Ascii("ping"))) || q == Some(TopText(Ascii("find_node")))
        || q == Some(TopText(Ascii("get_peers"))) || q == Some(TopText(Ascii("announce_peer"))))
  }

  lemma KindByName(y: Option<Top>)
    ensures KindIs(y, KindOf(y))
  {
    hide Ascii;
    LetterTexts();
  }

  lemma QueryByName(q: Option<Top>, was: KrpcQuery)
    ensures QueryIs(q, was, if QueryOf(q).Some? then QueryOf(q).value else was)
  {
    NamesDiffer();
  }

  lemma NamesDiffer()
    ensures Ascii("ping") != Ascii("find_node") && Ascii("ping") != Ascii("get_peers")
    ensures Ascii("ping") != Ascii("announce_peer") && Ascii("find_node") != Ascii("get_peers")
    ensures Ascii("find_node") != Ascii("announce_peer") && Ascii("get_peers") != Ascii("announce_peer")
  {
    assert Ascii("find_node")[0] != Ascii("get_peers")[0];
  }

  /**
   * krpc_msg_parse against the names of BEP 5: the last "y" alone gives the type; for queries and
   * responses, and for nothing else, the last "q" gives the query kind.
   */
  lemma {:induction false} ParseByName(mem: Bytes, p: nat, hi: nat, msg: Msg)
    requires p < hi <= |mem| && mem[p..p + 1] == Ascii("d") && TopEntries(mem, p + 1, hi).Some?
    ensures var es, r := TopEntries(mem, p + 1, hi).value, Parse(mem, p, hi, msg);
            && r.Returns? && r.code == -1
            && KindIs(LastTop(es, Ascii("y")), r.msg.kind)
            && (r.msg.kind == KtQuery || r.msg.kind == KtResponse ==>
                 QueryIs(LastTop(es, Ascii("q")), msg.query, r.msg.query))
            && (r.msg.kind == KtNone || r.msg.kind == KtError ==> r.msg.query == msg.query)
  {
    hide Parse, TopEntries, LastTop, KindOf, QueryOf, KindIs, QueryIs, Ascii;
    LetterTexts();
    StartsDict(mem, p, hi);
    ParseMeaning(mem, p, hi, msg);
    var es := TopEntries(mem, p + 1, hi).value;
    KindByName(LastTop(es, Ascii("y")));
    QueryByName(LastTop(es, Ascii("q")), msg.query);
  }

  /** Anything that does not begin with a d is refused and leaves the message as it was. */
  lemma {:induction false} ParseRefuses(mem: Bytes, p: nat, hi: nat, msg: Msg)
    requires p <= hi <= |mem| && (p == hi || mem[p..p + 1] != Ascii("d"))
    ensures Parse(mem, p, hi, msg) == Returns(-1, msg)
  {
    hide ScanUint, ScanDict;
    if p < hi { assert mem[p..p + 1] == [mem[p]] && Ascii("d") == ['d' as int]; }
  }

  lemma StartsDict(mem: Bytes, p: nat, hi: nat)
    requires p < hi <= |mem| && mem[p..p + 1] == Ascii("d")
    ensures Init(mem, p, hi).BDict?
  {
    hide NextInt, NextString;
    assert mem[p] == mem[p..p + 1][0] == Ascii("d")[0];
  }

  // Closed dictionaries, whatever is in them.

  function NodeTop(n: Node): Top
    requires WellFormed(n)
  {
    match n
    case Number(_, _) => TopInteger(ValueOf(n).value.i)
    case Word(_, s) => TopText(s)
    case Box(dict, _) => if dict then TopDict else TopList
  }

  function NodeKey(n: Node): Option<Bytes> { if n.Word? then Some(n.payload) else None }

  /**
   * The entries of a dictionary with these nodes. A box in key position is entered, not skipped:
   * its first node is taken for the value, and its end for that of the dictionary.
   */
  function NodeTops(ns: seq<Node>): seq<TopEntry>
    requires AllWellFormed(ns)
    decreases ns
  {
    if ns == [] then []
    else if ns[0].Box? then
      var inside := ns[0].inside;
      assert WellFormed(ns[0]) && AllWellFormed(inside);
      if inside == [] then [] else [TopEntry(None, NodeTop(inside[0]))] + NodeTops(inside[1..])
    else
      var rest := ns[1..];
      assert AllWellFormed(rest);
      if rest == [] then [] else [TopEntry(NodeKey(ns[0]), NodeTop(rest[0]))] + NodeTops(rest[1..])
  }

  lemma TokenOfNode(mem: Bytes, p: nat, hi: nat, n: Node)
    requires WellFormed(n) && HoldsNode(mem, p, hi, n)
    ensures p <= hi <= |mem|
    ensures var b := Next(mem, p, hi).b;
            Advances(b) && Within(mem, b) && TokenTop(mem, b) == NodeTop(n) && TokenKey(mem, b) == NodeKey(n)
  {
    hide Next, HoldsNode, Print, ValueOf;
    match n
    case Number(_, _) => NumberAt(mem, p, hi, n);
    case Word(_, _) => WordAt(mem, p, hi, n);
    case Box(_, _) => BoxAt(mem, p, hi, n);
  }

  /** One entry, from where its key and its value begin. */
  lemma TopsOnce(mem: Bytes, p: nat, hi: nat, key: Option<Bytes>, v: Node, es: seq<TopEntry>)
    requires p <= hi <= |mem| && Advances(Next(mem, p, hi).b) && !Next(mem, p, hi).b.BEnd?
    requires Within(mem, Next(mem, p, hi).b) && TokenKey(mem, Next(mem, p, hi).b) == key
    requires WellFormed(v) && HoldsNode(mem, Next(mem, p, hi).next, hi, v)
    requires var q := Next(mem, p, hi).next + |Print(v)|; q <= hi && TopEntries(mem, q, hi) == Some(es)
    ensures TopEntries(mem, p, hi) == Some([TopEntry(key, NodeTop(v))] + es)
  {
    hide Next, ListNext, DictNext, HoldsNode, Print, ValueOf, NodeTop, TokenTop, TokenKey;
    var m := Next(mem, p, hi).next;
    DictNextByList(mem, p, hi);
    ListNextOverNode(mem, m, hi, v);
    TokenOfNode(mem, m, hi, v);
  }

  lemma TopsEnd(mem: Bytes, p: nat, hi: nat)
    requires p <= hi <= |mem|
    requires EndMarkAt(mem, p, hi) || EndMarkAt(mem, Next(mem, p, hi).next, hi)
    ensures TopEntries(mem, p, hi) == Some([])
  {
    hide Next, ListNext, DictNext;
    DictNextByList(mem, p, hi);
    StopMeansEnd(mem, Next(mem, p, hi).next, hi);
    if EndMarkAt(mem, p, hi) { EndAsKey(mem, p, hi); }
  }

  lemma {:induction false} TopsOfNodes(mem: Bytes, p: nat, hi: nat, ns: seq<Node>)
    requires AllWellFormed(ns) && HoldsNodes(mem, p, hi, ns) && EndMarkAt(mem, p + |PrintAll(ns)|, hi)
    ensures p <= hi <= |mem| && TopEntries(mem, p, hi) == Some(NodeTops(ns))
    decreases ns
  {
    hide Next, HoldsNode, HoldsNodes, Print, ValueOf, TopEntries, NodeTop, NodeKey, TokenTop, TokenKey;
    if ns == [] {
      TopsEnd(mem, p, hi);
    } else {
      NodesParts(mem, p, hi, ns);
      TokenOfNode(mem, p, hi, ns[0]);
      if ns[0].Box? {
        TopsOfBox(mem, p, hi, ns[0]);
      } else {
        var rest := ns[1..];
        LeafEnds(mem, p, hi, ns[0]);
        if rest == [] {
          TopsEnd(mem, p, hi);
        } else {
          NodesParts(mem, p + |Print(ns[0])|, hi, rest);
          TopsOfNodes(mem, p + |Print(ns[0])| + |Print(rest[0])|, hi, rest[1..]);
          TopsOnce(mem, p, hi, NodeKey(ns[0]), rest[0], NodeTops(rest[1..]));
        }
      }
    }
  }

  lemma LeafEnds(mem: Bytes, p: nat, hi: nat, n: Node)
    requires !n.Box? && WellFormed(n) && HoldsNode(mem, p, hi, n)
    ensures p <= hi <= |mem| && Next(mem, p, hi).next == p + |Print(n)| && !Next(mem, p, hi).b.BEnd?
  {
    hide Next, HoldsNode, Print, ValueOf;
    if n.Number? { NumberAt(mem, p, hi, n); } else { WordAt(mem, p, hi, n); }
  }

  lemma {:induction false} TopsOfBox(mem: Bytes, p: nat, hi: nat, n: Node)
    requires n.Box? && WellFormed(n) && AllWellFormed(n.inside) && HoldsNode(mem, p, hi, n)
    ensures p <= hi <= |mem|
    ensures TopEntries(mem, p, hi) ==
            if n.inside == [] then Some([])
            else Some([TopEntry(None, NodeTop(n.inside[0]))] + NodeTops(n.inside[1..]))
    decreases n, 0
  {
    hide Next, HoldsNode, HoldsNodes, Print, ValueOf, TopEntries, NodeTop, NodeTops, TokenTop;
    BoxAt(mem, p, hi, n);
    TokenOfNode(mem, p, hi, n);
    if n.inside == [] {
      TopsEnd(mem, p, hi);
    } else {
      NodesParts(mem, p + 1, hi, n.inside);
      TopsOfNodes(mem, p + 1 + |Print(n.inside[0])|, hi, n.inside[1..]);
      TopsOnce(mem, p, hi, None, n.inside[0], NodeTops(n.inside[1..]));
    }
  }

  /**
   * krpc_msg_parse on every datagram that begins with a closed dictionary, in terms of its syntax:
   * nested values need not be readable, keys need not be strings.
   */
  lemma {:induction false} ParseClosed(mem: Bytes, p: nat, hi: nat, ns: seq<Node>, msg: Msg)
    requires AllWellFormed(ns) && HoldsNode(mem, p, hi, Box(true, ns))
    ensures p <= hi <= |mem| && Parse(mem, p, hi, msg) == Returns(-1, Meaning(NodeTops(ns), msg))
  {
    hide Next, HoldsNode, HoldsNodes, Print, Parse, Meaning, NodeTops, TopEntries;
    BoxAt(mem, p, hi, Box(true, ns));
    TopsOfNodes(mem, p + 1, hi, ns);
    ParseMeaning(mem, p, hi, msg);
  }

  // Dictionaries whose entries can be read completely.

  function TopOf(t: Tree): Top {
    match t
    case Integer(i) => TopInteger(i)
    case Text(s) => TopText(s)
    case List(_) => TopList
    case Dict(_) => TopDict
  }

  function TopsOf(es: seq<Entry>): seq<TopEntry> {
    if es == [] then [] else [TopEntry(Some(es[0].key), TopOf(es[0].val))] + TopsOf(es[1..])
  }

  lemma ValueTop(mem: Bytes, b: Benr)
    requires Within(mem, b) && ReadValue(mem, b).value.Some?
    ensures Advances(b) && TokenTop(mem, b) == TopOf(ReadValue(mem, b).value.value)
  {
    hide ReadItems, ReadEntries;
  }

  lemma {:induction false} ReadableTops(mem: Bytes, p: nat, hi: nat, es: seq<Entry>)
    requires p <= hi <= |mem| && ReadEntries(mem, p, hi).value == Some(es)
    ensures TopEntries(mem, p, hi) == Some(TopsOf(es))
    decreases hi - p
  {
    hide DictNext, ReadValue, TokenTop, TopOf;
    match DictNext(mem, p, hi)
    case DictStop(_, _) =>
    case Pair(k, v, q) =>
      ValueTop(mem, v);
      var rest := ReadEntries(mem, q, hi).value.value;
      assert es[1..] == rest;
      ReadableTops(mem, q, hi, rest);
  }

  /** The last value under a key, and its token's account. */
  function LastValue(es: seq<Entry>, key: Bytes): Option<Tree> {
    if es == [] then None
    else if LastValue(es[1..], key).Some? then LastValue(es[1..], key)
    else if es[0].key == key then Some(es[0].val)
    else None
  }

  lemma {:induction false} LastOfTops(es: seq<Entry>, key: Bytes)
    ensures LastTop(TopsOf(es), key) ==
            if LastValue(es, key).Some? then Some(TopOf(LastValue(es, key).value)) else None
  {
    hide TopOf;
    if es != [] {
      LastOfTops(es[1..], key);
      assert TopsOf(es)[1..] == TopsOf(es[1..]);
    }
  }

  lemma ReadMessage(mem: Bytes, p: nat, hi: nat, es: seq<Entry>)
    requires p <= hi <= |mem| && Read(mem, p, hi).value == Some(Dict(es))
    ensures p < hi && Init(mem, p, hi).BDict? && TopEntries(mem, p + 1, hi) == Some(TopsOf(es))
  {
    hide Next, ReadItems, ReadEntries, TopEntries;
    ReadableTops(mem, p + 1, hi, es);
  }

  /** A message whose tree is known: the last values under "y" and "q" decide. */
  lemma ParseReadable(mem: Bytes, p: nat, hi: nat, es: seq<Entry>, msg: Msg)
    requires p <= hi <= |mem| && Read(mem, p, hi).value == Some(Dict(es))
    ensures Parse(mem, p, hi, msg) == Returns(-1, Meaning(TopsOf(es), msg))
    ensures forall key :: LastTop(TopsOf(es), key) ==
              if LastValue(es, key).Some? then Some(TopOf(LastValue(es, key).value)) else None
  {
    hide Read, Parse, Meaning, TopEntries, TopsOf, LastTop, LastValue, TopOf;
    ReadMessage(mem, p, hi, es);
    ParseMeaning(mem, p, hi, msg);
    forall key { LastOfTops(es, key); }
  }

  /** In particular on every emitted dictionary without zero bytes, with anything behind it. */
  lemma {:induction false} ParseEmitted(es: seq<Entry>, trail: Bytes, msg: Msg)
    requires Emittable(Dict(es)) && NulFree(Dict(es))
    ensures var mem := Emitted(Dict(es)) + trail;
            Parse(mem, 0, |mem|, msg) == Returns(-1, Meaning(TopsOf(es), msg))
  {
    hide Emitted, Read, Work, Parse, Meaning, TopEntries, TopsOf;
    RoundTrip(Dict(es), trail);
    var mem := Emitted(Dict(es)) + trail;
    ReadMessage(mem, 0, |mem|, es);
    ParseMeaning(mem, 0, |mem|, msg);
  }

  /** The same for such a dictionary, against the names of BEP 5. */
  lemma {:induction false} ParseEmittedByName(es: seq<Entry>, trail: Bytes, msg: Msg)
    requires Emittable(Dict(es)) && NulFree(Dict(es))
    ensures var mem := Emitted(Dict(es)) + trail;
            var r := Parse(mem, 0, |mem|, msg);
            && r.Returns? && r.code == -1
            && KindIs(LastTop(TopsOf(es), Ascii("y")), r.msg.kind)
            && (r.msg.kind == KtQuery || r.msg.kind == KtResponse ==>
                 QueryIs(LastTop(TopsOf(es), Ascii("q")), msg.query, r.msg.query))
            && (r.msg.kind == KtNone || r.msg.kind == KtError ==> r.msg.query == msg.query)
  {
    hide Emitted, Parse, LastTop, KindOf, QueryOf, KindIs, QueryIs, Ascii, TopsOf;
    LetterTexts();
    ParseEmitted(es, trail, msg);
    KindByName(LastTop(TopsOf(es), Ascii("y")));
    QueryByName(LastTop(TopsOf(es), Ascii("q")), msg.query);
  }

  // Order of entries.

  ghost predicate DistinctKeys(es: seq<TopEntry>) {
    forall i, j :: 0 <= i < j < |es| && es[i].key.Some? ==> es[i].key != es[j].key
  }

  lemma {:induction false} LastTopIsThere(es: seq<TopEntry>, key: Bytes)
    ensures LastTop(es, key).Some? ==> TopEntry(Some(key), LastTop(es, key).value) in es
    ensures LastTop(es, key).None? ==> forall e :: e in es ==> e.key != Some(key)
  {
    if es != [] {
      LastTopIsThere(es[1..], key);
      assert forall e :: e in es ==> e == es[0] || e in es[1..];
    }
  }

  lemma SameEntriesSameValue(es: seq<TopEntry>, es': seq<TopEntry>, key: Bytes)
    requires DistinctKeys(es) && multiset(es) == multiset(es')
    ensures LastTop(es, key) == LastTop(es', key)
  {
    hide LastTop;
    LastTopIsThere(es, key);
    LastTopIsThere(es', key);
    assert forall e :: e in es <==> e in multiset(es);
    assert forall e :: e in es' <==> e in multiset(es');
    if LastTop(es', key).Some? {
      var e, e' := TopEntry(Some(key), LastTop(es, key).value), TopEntry(Some(key), LastTop(es', key).value);
      assert e in es && e' in es;
      var i :| 0 <= i < |es| && es[i] == e;
      var j :| 0 <= j < |es| && es[j] == e';
      assert i == j;
    }
  }

  /** With no duplicate keys, the order of the entries changes nothing, whatever their values contain. */
  lemma {:induction false} OrderIsIrrelevant(
    mem: Bytes, es: seq<TopEntry>, mem': Bytes, es': seq<TopEntry>, msg: Msg)
    requires |mem| > 0 && mem[0] == CH_D && TopEntries(mem, 1, |mem|) == Some(es)
    requires |mem'| > 0 && mem'[0] == CH_D && TopEntries(mem', 1, |mem'|) == Some(es')
    requires DistinctKeys(es) && multiset(es) == multiset(es')
    ensures Parse(mem, 0, |mem|, msg) == Parse(mem', 0, |mem'|, msg)
  {
    hide Parse, TopEntries, LastTop, DistinctKeys;
    ParseMeaning(mem, 0, |mem|, msg);
    ParseMeaning(mem', 0, |mem'|, msg);
    SameEntriesSameValue(es, es', [LETTER_Y]);
    SameEntriesSameValue(es, es', [LETTER_Q]);
  }
}

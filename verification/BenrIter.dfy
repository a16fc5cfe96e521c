/**
 * The lazy list and dict iterators of benr.c and the client that walks a whole value with them:
 * iterate a container, descend into each child, stop when the iterator reports its end.
 */
module BenrIter {
  import opened ByteString
  import opened BencodeTree
  import opened BenrToken
  import opened BenrSkip

  /** Outcome of benr_list_iter_next: an item and the moved cursor, or a negative code and the cursor left behind. */
  datatype ListStep = Item(b: Benr, next: nat) | Stop(code: int, ctx: Span)

  /** Outcome of benr_dict_iter_next. */
  datatype DictStep = Pair(k: Benr, v: Benr, next: nat) | DictStop(code: int, ctx: Span)

  /** The token lies inside the buffer it was read from. */
  predicate Within(mem: Bytes, b: Benr) {
    match b
    case BString(s, n) => s + n <= |mem|
    case BList(c) => c.start + c.len <= |mem|
    case BDict(c) => c.start + c.len <= |mem|
    case _ => true
  }

  function Room(b: Benr): nat {
    match b
    case BList(c) => c.len
    case BDict(c) => c.len
    case _ => 0
  }

  function ListNext(mem: Bytes, p: nat, hi: nat): (r: ListStep)
    requires p <= hi <= |mem|
    ensures r.Item? ==> p <= r.next <= hi && Within(mem, r.b) && (Advances(r.b) <==> p < r.next)
    ensures r.Item? && Advances(r.b) ==> Room(r.b) < hi - p
    ensures r.Stop? ==> p < r.ctx.start && r.ctx.start + r.ctx.len <= hi && r.code < 0
  {
    var x := Next(mem, p, hi);
    if x.b.BEnd? then Stop(-1, Span(x.next, 0))
    else if IsContainer(x.b) then
      match Skip(mem, x.next, hi)
      case Failed(code) => Stop(code, Span(x.next, hi - x.next))
      case Landed(q) => Item(x.b, q)
    else Item(x.b, x.next)
  }

  function DictNext(mem: Bytes, p: nat, hi: nat): (r: DictStep)
    requires p <= hi <= |mem|
    ensures r.Pair? ==> p <= r.next <= hi && Within(mem, r.k) && Within(mem, r.v)
    ensures r.Pair? ==> (Advances(r.k) <==> p < r.next) && (!Advances(r.k) ==> r.v == r.k)
    ensures r.Pair? && Advances(r.k) ==> Room(r.v) < hi - p
    ensures r.DictStop? ==> p < r.ctx.start && r.ctx.start + r.ctx.len <= hi && r.code < 0
  {
    var k := Next(mem, p, hi);
    if k.b.BEnd? then DictStop(-1, Span(k.next, 0))
    else
      var v := Next(mem, k.next, hi);
      if v.b.BEnd? then DictStop(-1, Span(v.next, 0))
      else if IsContainer(v.b) then
        match Skip(mem, v.next, hi)
        case Failed(code) => DictStop(code, Span(v.next, hi - v.next))
        case Landed(q) => Pair(k.b, v.b, q)
      else Pair(k.b, v.b, v.next)
  }

  /** Behind its key, a dict iterator goes on as a list iterator would. */
  lemma DictNextByList(mem: Bytes, p: nat, hi: nat)
    requires p <= hi <= |mem|
    ensures var k := Next(mem, p, hi);
            DictNext(mem, p, hi) ==
            if k.b.BEnd? then DictStop(-1, Span(k.next, 0))
            else match ListNext(mem, k.next, hi)
                 case Stop(code, ctx) => DictStop(code, ctx)
                 case Item(v, q) => Pair(k.b, v, q)
  {
    hide Next, SkipFrom;
  }

  /** What a walk found, and over how many bytes it moved iterator cursors in total. */
  datatype Visit<T> = Visit(value: Option<T>, moved: nat)

  /** A whole value from its token, through benr_as_* and the iterators. */
  function ReadValue(mem: Bytes, b: Benr): (r: Visit<Tree>)
    requires Within(mem, b)
    ensures r.value.Some? ==> Advances(b)
    decreases Room(b), 1
  {
    match b
    case BInt(i) => Visit(Some(Integer(i)), 0)
    case BString(s, n) => Visit(Some(Text(mem[s..s + n])), 0)
    case BList(c) =>
      var r := ReadItems(mem, c.start, c.start + c.len);
      Visit(if r.value.Some? then Some(List(r.value.value)) else None, r.moved)
    case BDict(c) =>
      var r := ReadEntries(mem, c.start, c.start + c.len);
      Visit(if r.value.Some? then Some(Dict(r.value.value)) else None, r.moved)
    case _ => Visit(None, 0)
  }

  function ReadItems(mem: Bytes, p: nat, hi: nat): Visit<seq<Tree>>
    requires p <= hi <= |mem|
    decreases hi - p, 0
  {
    match ListNext(mem, p, hi)
    case Stop(code, ctx) => Visit(if code == -1 then Some([]) else None, ctx.start - p)
    case Item(b, q) =>
      if !Advances(b) then Visit(None, 0)
      else
        var v := ReadValue(mem, b);
        if v.value.None? then Visit(None, q - p + v.moved)
        else
          var r := ReadItems(mem, q, hi);
          Visit(if r.value.Some? then Some([v.value.value] + r.value.value) else None, q - p + v.moved + r.moved)
  }

  function ReadEntries(mem: Bytes, p: nat, hi: nat): Visit<seq<Entry>>
    requires p <= hi <= |mem|
    decreases hi - p, 0
  {
    match DictNext(mem, p, hi)
    case DictStop(code, ctx) => Visit(if code == -1 then Some([]) else None, ctx.start - p)
    case Pair(k, v, q) =>
      if !k.BString? then Visit(None, q - p)
      else
        var x := ReadValue(mem, v);
        if x.value.None? then Visit(None, q - p + x.moved)
        else
          var r := ReadEntries(mem, q, hi);
          var e := Entry(mem[k.start..k.start + k.len], x.value.value);
          Visit(if r.value.Some? then Some([e] + r.value.value) else None, q - p + x.moved + r.moved)
  }

  /** benr_init on the hi - p bytes at p, then the whole value. */
  function Read(mem: Bytes, p: nat, hi: nat): Visit<Tree>
    requires p <= hi <= |mem|
  {
    ReadValue(mem, Init(mem, p, hi))
  }

  // One step over an encoded child.

  lemma ListNextOverTree(mem: Bytes, p: nat, hi: nat, t: Tree)
    requires Sized(t) && Holds(mem, p, hi, t)
    ensures ListNext(mem, p, hi) == Item(Next(mem, p, hi).b, p + |Encode(t)|)
    ensures p < p + |Encode(t)| <= hi
  {
    hide Next, Holds, Encode, Skip;
    match t
    case Integer(i) => IntegerAt(mem, p, hi, t);
    case Text(s) => TextAt(mem, p, hi, t);
    case List(ts) => SkipLandsPastMatchingEnd(mem, p, hi, t);
    case Dict(es) => SkipLandsPastMatchingEnd(mem, p, hi, t);
  }

  lemma {:induction false} DictNextOverEntry(mem: Bytes, p: nat, hi: nat, es: seq<Entry>)
    requires es != [] && SizedEntries(es) && HoldsEntries(mem, p, hi, es)
    ensures var k, n := p + |EncodeText(es[0].key)|, |es[0].key|;
            && n <= k <= hi
            && DictNext(mem, p, hi) ==
               Pair(BString(k - n, n), Next(mem, k, hi).b, k + |Encode(es[0].val)|)
            && mem[k - n..k] == es[0].key
  {
    hide Next, Holds, HoldsEntries, HoldsText, Encode, EncodeText, EncodeEntries, Skip;
    EntriesAt(mem, p, hi, es);
    TextRoundTrip(mem, p, hi, es[0].key);
    var k := p + |EncodeText(es[0].key)|;
    match es[0].val
    case Integer(i) => IntegerAt(mem, k, hi, es[0].val);
    case Text(s) => TextAt(mem, k, hi, es[0].val);
    case List(ts) => SkipLandsPastMatchingEnd(mem, k, hi, es[0].val);
    case Dict(xs) => SkipLandsPastMatchingEnd(mem, k, hi, es[0].val);
  }

  // Round trip, with the exact number of bytes moved over.

  /** Bytes the iterators move over while the children of t are walked, re-scans included. */
  function Work(t: Tree): nat
    decreases t
  {
    match t
    case Integer(_) => 0
    case Text(_) => 0
    case List(ts) => WorkItems(ts)
    case Dict(es) => WorkEntries(es)
  }

  function WorkItems(ts: seq<Tree>): nat
    decreases ts
  {
    if ts == [] then 1 else |Encode(ts[0])| + Work(ts[0]) + WorkItems(ts[1..])
  }

  function WorkEntries(es: seq<Entry>): nat
    decreases es
  {
    if es == [] then 1
    else |EncodeText(es[0].key)| + |Encode(es[0].val)| + Work(es[0].val) + WorkEntries(es[1..])
  }

  lemma {:induction false} ReadTree(mem: Bytes, p: nat, hi: nat, t: Tree)
    requires Emittable(t) && Holds(mem, p, hi, t)
    ensures Within(mem, Next(mem, p, hi).b)
    ensures ReadValue(mem, Next(mem, p, hi).b) == Visit(Some(t), Work(t))
    decreases t
  {
    hide Next, Holds, HoldsItems, HoldsEntries, Encode, ListNext, DictNext;
    match t
    case Integer(i) => IntegerAt(mem, p, hi, t);
    case Text(s) => TextAt(mem, p, hi, t);
    case List(ts) =>
      ListAt(mem, p, hi, t);
      ReadItemsBack(mem, p + 1, hi, ts);
    case Dict(es) =>
      DictAt(mem, p, hi, t);
      ReadEntriesBack(mem, p + 1, hi, es);
  }

  /** One turn of a list walk whose remaining turns find ts. */
  lemma ReadItemsOnce(mem: Bytes, p: nat, hi: nat, t: Tree, n: nat, ts: seq<Tree>, m: nat)
    requires p <= hi <= |mem| && ListNext(mem, p, hi).Item? && Advances(ListNext(mem, p, hi).b)
    requires ReadValue(mem, ListNext(mem, p, hi).b) == Visit(Some(t), n)
    requires ReadItems(mem, ListNext(mem, p, hi).next, hi) == Visit(Some(ts), m)
    ensures ReadItems(mem, p, hi) == Visit(Some([t] + ts), ListNext(mem, p, hi).next - p + n + m)
  {
    hide Next, ListNext, ReadValue;
  }

  lemma ReadEntriesOnce(mem: Bytes, p: nat, hi: nat, t: Tree, n: nat, es: seq<Entry>, m: nat)
    requires p <= hi <= |mem| && DictNext(mem, p, hi).Pair? && DictNext(mem, p, hi).k.BString?
    requires ReadValue(mem, DictNext(mem, p, hi).v) == Visit(Some(t), n)
    requires ReadEntries(mem, DictNext(mem, p, hi).next, hi) == Visit(Some(es), m)
    ensures var k := DictNext(mem, p, hi).k;
            ReadEntries(mem, p, hi) ==
            Visit(Some([Entry(mem[k.start..k.start + k.len], t)] + es), DictNext(mem, p, hi).next - p + n + m)
  {
    hide Next, DictNext, ReadValue;
  }

  lemma {:induction false} ReadItemsBack(mem: Bytes, p: nat, hi: nat, ts: seq<Tree>)
    requires EmittableItems(ts) && HoldsItems(mem, p, hi, ts)
    ensures ReadItems(mem, p, hi) == Visit(Some(ts), WorkItems(ts))
    decreases ts
  {
    hide Next, ListNext, Holds, HoldsItems, Encode, EncodeItems, ReadValue, Work, ReadItems;
    if ts == [] {
      NoItemsAt(mem, p, hi);
      EndOfList(mem, p, hi);
    } else {
      ItemsAt(mem, p, hi, ts);
      EmittableIsSized(ts[0]);
      ListNextOverTree(mem, p, hi, ts[0]);
      ReadTree(mem, p, hi, ts[0]);
      var q := p + |Encode(ts[0])|;
      ReadItemsBack(mem, q, hi, ts[1..]);
      ReadItemsOnce(mem, p, hi, ts[0], Work(ts[0]), ts[1..], WorkItems(ts[1..]));
      assert ts == [ts[0]] + ts[1..];
    }
  }

  lemma EndOfList(mem: Bytes, p: nat, hi: nat)
    requires p < hi <= |mem| && Next(mem, p, hi) == Step(BEnd, p + 1)
    ensures ReadItems(mem, p, hi) == Visit(Some([]), 1) && ReadEntries(mem, p, hi) == Visit(Some([]), 1)
  {
    hide Next;
  }

  lemma {:induction false} ReadEntriesBack(mem: Bytes, p: nat, hi: nat, es: seq<Entry>)
    requires EmittableEntries(es) && HoldsEntries(mem, p, hi, es)
    ensures ReadEntries(mem, p, hi) == Visit(Some(es), WorkEntries(es))
    decreases es
  {
    hide Next, DictNext, Holds, HoldsEntries, HoldsText, Encode, EncodeText, EncodeEntries;
    hide ReadValue, ReadEntries, Work;
    if es == [] {
      NoEntriesAt(mem, p, hi);
      EndOfList(mem, p, hi);
    } else {
      EntriesAt(mem, p, hi, es);
      EmittableEntriesAreSized(es);
      DictNextOverEntry(mem, p, hi, es);
      var k := p + |EncodeText(es[0].key)|;
      ReadTree(mem, k, hi, es[0].val);
      ReadEntriesBack(mem, k + |Encode(es[0].val)|, hi, es[1..]);
      ReadEntriesOnce(mem, p, hi, es[0].val, Work(es[0].val), es[1..], WorkEntries(es[1..]));
      assert es == [es[0]] + es[1..];
    }
  }
}

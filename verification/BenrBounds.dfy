/**
 * Two promises of benr.h about containers whose length is only an upper bound:
 * nothing beyond a container's own end marker matters to walking it (benr.h:91, benr.h:96),
 * and re-scanning nested containers costs at most quadratically many byte moves (benr.h:12-32).
 */
module BenrBounds {
  import opened ByteString
  import opened BencodeTree
  import opened BenrToken
  import opened BenrSkip
  import opened BenrIter
  import opened BenrRoundTrip

  /** q is where the container level that is open at p closes, depth levels up. */
  predicate ClosesAt(mem: Bytes, p: nat, hi: nat, depth: nat, q: nat) {
    p <= hi <= |mem| && depth > 0 && SkipFrom(mem, p, hi, depth) == Landed(q)
  }

  /** mem' read up to hi' holds the same bytes from p to q; beyond q anything goes. */
  ghost predicate SameUpTo(mem: Bytes, p: nat, mem': Bytes, hi': nat, q: nat) {
    Agree(mem, mem', p, q) && p <= q <= hi' <= |mem'|
  }

  lemma NextInside(mem: Bytes, p: nat, hi: nat, mem': Bytes, hi': nat, depth: nat, q: nat)
    requires ClosesAt(mem, p, hi, depth, q) && SameUpTo(mem, p, mem', hi', q)
    ensures var s := Next(mem, p, hi);
            && Advances(s.b) && s.next <= q
            && Next(mem', p, hi') == Step(Rebound(s.b, hi'), s.next)
            && SameUpTo(mem, s.next, mem', hi', q)
            && SkipFrom(mem, s.next, hi, DepthAfter(s.b, depth)) == Landed(q)
  {
    hide Next;
    var s := Next(mem, p, hi);
    assert SkipFrom(mem, s.next, hi, DepthAfter(s.b, depth)) == Landed(q);
    NextLocal(mem, p, hi, mem', hi');
  }

  /** A container opened at p - 1 inside the level that closes at q is skipped identically, to inside q. */
  lemma SkipInside(mem: Bytes, p: nat, hi: nat, mem': Bytes, hi': nat, depth: nat, q: nat)
    requires ClosesAt(mem, p, hi, depth + 1, q) && depth > 0 && SameUpTo(mem, p, mem', hi', q)
    ensures var r := Skip(mem, p, hi);
            && r.Landed? && r.next <= q && ClosesAt(mem, r.next, hi, depth, q)
            && Skip(mem', p, hi') == r
            && SameUpTo(mem, r.next, mem', hi', q)
  {
    hide Next;
    SkipSplit(mem, p, hi, 1, depth);
    SkipLocal(mem, p, hi, mem', hi', 1);
  }

  /**
   * One step of a list iterator inside a level that closes at q, however deep: it stays inside q,
   * and it is the same step in any memory that agrees up to q and any bound not below q.
   */
  lemma ListNextInside(mem: Bytes, p: nat, hi: nat, mem': Bytes, hi': nat, depth: nat, q: nat)
    requires ClosesAt(mem, p, hi, depth, q) && SameUpTo(mem, p, mem', hi', q)
    ensures match ListNext(mem, p, hi)
            case Stop(code, ctx) => code == -1 && ctx.start <= q && ListNext(mem', p, hi') == Stop(code, ctx)
            case Item(b, next) =>
              && next <= q && Advances(b) && ClosesAt(mem, next, hi, depth, q)
              && ListNext(mem', p, hi') == Item(Rebound(b, hi'), next)
              && (IsContainer(b) ==> ClosesAt(mem, p + 1, hi, 1, next))
  {
    hide Next;
    NextInside(mem, p, hi, mem', hi', depth, q);
    var s := Next(mem, p, hi);
    if IsContainer(s.b) { SkipInside(mem, s.next, hi, mem', hi', depth, q); }
  }

  /**
   * The same for a dict iterator. A key that is itself a container is not skipped, so the
   * iterator may be one level deeper afterwards; it is still inside q.
   */
  lemma DictNextInside(mem: Bytes, p: nat, hi: nat, mem': Bytes, hi': nat, depth: nat, q: nat)
    requires ClosesAt(mem, p, hi, depth, q) && SameUpTo(mem, p, mem', hi', q)
    ensures match DictNext(mem, p, hi)
            case DictStop(code, ctx) => code == -1 && ctx.start <= q && DictNext(mem', p, hi') == DictStop(code, ctx)
            case Pair(k, v, next) =>
              && next <= q && Advances(k) && Advances(v)
              && ClosesAt(mem, next, hi, if IsContainer(k) then depth + 1 else depth, q)
              && DictNext(mem', p, hi') == Pair(Rebound(k, hi'), Rebound(v, hi'), next)
              && (IsContainer(v) ==> ClosesAt(mem, Next(mem, p, hi).next + 1, hi, 1, next))
  {
    hide Next, ListNext, DictNext, SkipFrom;
    NextInside(mem, p, hi, mem', hi', depth, q);
    DictNextByList(mem, p, hi);
    DictNextByList(mem', p, hi');
    var k := Next(mem, p, hi);
    if k.b.BEnd? {
      AtTheEnd(mem, p, hi, depth, q);
    } else {
      ListNextInside(mem, k.next, hi, mem', hi', DepthAfter(k.b, depth), q);
    }
  }

  lemma AtTheEnd(mem: Bytes, p: nat, hi: nat, depth: nat, q: nat)
    requires ClosesAt(mem, p, hi, depth, q) && Next(mem, p, hi).b.BEnd?
    ensures Next(mem, p, hi).next <= q
  {
    hide Next;
  }

  // Whole walks.

  lemma {:induction false} ReadItemsInside(mem: Bytes, p: nat, hi: nat, mem': Bytes, hi': nat, q: nat)
    requires ClosesAt(mem, p, hi, 1, q) && SameUpTo(mem, p, mem', hi', q)
    ensures ReadItems(mem', p, hi') == ReadItems(mem, p, hi)
    decreases hi - p, 0
  {
    hide Next, ListNext, DictNext, SkipFrom, ReadValue;
    ListNextInside(mem, p, hi, mem', hi', 1, q);
    match ListNext(mem, p, hi) {
      case Stop(_, _) =>
      case Item(b, next) =>
        ItemParts(mem, p, hi);
        ReadValueInside(mem, b, hi, mem', hi', p, next);
        ReadItemsInside(mem, next, hi, mem', hi', q);
    }
  }

  lemma {:induction false} ReadEntriesInside(mem: Bytes, p: nat, hi: nat, mem': Bytes, hi': nat, q: nat)
    requires ClosesAt(mem, p, hi, 1, q) && SameUpTo(mem, p, mem', hi', q)
    ensures ReadEntries(mem', p, hi') == ReadEntries(mem, p, hi)
    decreases hi - p, 0
  {
    hide Next, ListNext, DictNext, SkipFrom, ReadValue;
    DictNextInside(mem, p, hi, mem', hi', 1, q);
    match DictNext(mem, p, hi) {
      case DictStop(_, _) =>
      case Pair(k, v, next) =>
        if k.BString? {
          PairParts(mem, p, hi);
          assert mem[k.start..k.start + k.len] == mem'[k.start..k.start + k.len];
          ReadValueInside(mem, v, hi, mem', hi', Next(mem, p, hi).next, next);
          ReadEntriesInside(mem, next, hi, mem', hi', q);
        }
    }
  }

  lemma ItemParts(mem: Bytes, p: nat, hi: nat)
    requires p <= hi <= |mem| && ListNext(mem, p, hi).Item?
    ensures var s := ListNext(mem, p, hi);
            && s.b == Next(mem, p, hi).b
            && (s.b.BString? ==> p < s.b.start && s.b.start + s.b.len == s.next)
            && (IsContainer(s.b) ==> p < hi && s.b.ctx == Span(p + 1, hi - (p + 1)))
  {
    hide Next;
  }

  /** Where the two tokens of a dict step lie. */
  lemma PairParts(mem: Bytes, p: nat, hi: nat)
    requires p <= hi <= |mem| && DictNext(mem, p, hi).Pair?
    ensures var s := DictNext(mem, p, hi);
            var m := Next(mem, p, hi).next;
            && s.k == Next(mem, p, hi).b && s.v == Next(mem, m, hi).b && p <= m <= s.next
            && (Advances(s.v) ==> m < s.next)
            && (s.k.BString? ==> p < s.k.start && s.k.start + s.k.len == m)
            && (s.v.BString? ==> m < s.v.start && s.v.start + s.v.len == s.next)
            && (IsContainer(s.v) ==> m < hi && s.v.ctx == Span(m + 1, hi - (m + 1)))
  {
    hide Next;
  }

  predicate TokenAt(mem: Bytes, b: Benr, hi: nat, p: nat, next: nat) {
    && p < next <= hi <= |mem|
    && (b.BString? ==> p <= b.start && b.start + b.len <= next)
    && (IsContainer(b) ==> b.ctx == Span(p + 1, hi - (p + 1)) && ClosesAt(mem, p + 1, hi, 1, next))
  }

  lemma {:induction false} ReadValueInside(mem: Bytes, b: Benr, hi: nat, mem': Bytes, hi': nat, p: nat, next: nat)
    requires TokenAt(mem, b, hi, p, next) && SameUpTo(mem, p, mem', hi', next)
    ensures Within(mem, b) && Within(mem', Rebound(b, hi'))
    ensures ReadValue(mem', Rebound(b, hi')) == ReadValue(mem, b)
    decreases hi - p - 1, 1
  {
    hide Next, ListNext, DictNext, SkipFrom;
    match b
    case BString(s, n) => assert mem[s..s + n] == mem'[s..s + n];
    case BList(c) => ReadItemsInside(mem, p + 1, hi, mem', hi', next);
    case BDict(c) => ReadEntriesInside(mem, p + 1, hi, mem', hi', next);
    case _ =>
  }

  /**
   * Walking a container whose length bound runs to the end of the buffer finds the same items,
   * at the same cost, as walking it in a buffer cut right behind its own end marker.
   */
  lemma LooseBoundIsHarmless(mem: Bytes, p: nat, hi: nat, q: nat)
    requires ClosesAt(mem, p, hi, 1, q)
    ensures q <= |mem| && ReadItems(mem, p, hi) == ReadItems(mem[..q], p, q)
    ensures ReadEntries(mem, p, hi) == ReadEntries(mem[..q], p, q)
  {
    hide ReadItems, ReadEntries;
    ReadItemsInside(mem, p, hi, mem[..q], q, q);
    ReadEntriesInside(mem, p, hi, mem[..q], q, q);
  }

  /** No byte behind the end marker is looked at: replacing all of them changes nothing. */
  lemma {:induction false} TrailingBytesAreIrrelevant(mem: Bytes, p: nat, hi: nat, q: nat, trail: Bytes)
    requires ClosesAt(mem, p, hi, 1, q)
    ensures var mem' := mem[..q] + trail;
            && ReadItems(mem, p, hi) == ReadItems(mem', p, |mem'|)
            && ReadEntries(mem, p, hi) == ReadEntries(mem', p, |mem'|)
  {
    hide ReadItems, ReadEntries;
    var mem' := mem[..q] + trail;
    ReadItemsInside(mem, p, hi, mem', |mem'|, q);
    ReadEntriesInside(mem, p, hi, mem', |mem'|, q);
  }

  // Cost.

  lemma SquareStep(n: nat, r: nat)
    requires r >= 2
    ensures 4 * n + n * n + r * r <= (n + r) * (n + r)
  {
    assert (n + r) * (n + r) == n * n + 2 * n * r + r * r;
    assert n * r >= n * 2;
  }

  /** 4 * m <= (n + 1)^2: m bytes moved for a body of n bytes, end marker included. */
  predicate Affordable(m: nat, n: nat) { 4 * m <= (n + 1) * (n + 1) }

  lemma AffordStep(n: nat, child: nat, rest: nat, left: nat)
    requires n > 0 && left > 0
    requires Affordable(child, n - 1) && Affordable(rest, left)
    ensures Affordable(n + child + rest, n + left)
    ensures Affordable(n + child, n + left)
  {
    SquareStep(n, left + 1);
  }

  lemma {:induction false} ReadItemsCost(mem: Bytes, p: nat, hi: nat, q: nat)
    requires ClosesAt(mem, p, hi, 1, q)
    ensures p < q && Affordable(ReadItems(mem, p, hi).moved, q - p)
    decreases hi - p, 0
  {
    hide Next, ListNext, SkipFrom, Affordable;
    ListNextInside(mem, p, hi, mem, hi, 1, q);
    match ListNext(mem, p, hi) {
      case Stop(_, ctx) => AffordEnd(ctx.start - p, q - p);
      case Item(b, next) =>
        ItemParts(mem, p, hi);
        ReadValueCost(mem, b, hi, p, next);
        ReadItemsCost(mem, next, hi, q);
        AffordStep(next - p, ReadValue(mem, b).moved, ReadItems(mem, next, hi).moved, q - next);
    }
  }

  lemma AffordEnd(m: nat, n: nat)
    requires 0 < m <= n
    ensures Affordable(m, n)
  {
    assert (n + 1) * (n + 1) == n * n + 2 * n + 1;
    assert n * n >= 2 * n - 1 by { assert (n - 1) * (n - 1) >= 0; }
  }

  lemma {:induction false} ReadEntriesCost(mem: Bytes, p: nat, hi: nat, q: nat)
    requires ClosesAt(mem, p, hi, 1, q)
    ensures p < q && Affordable(ReadEntries(mem, p, hi).moved, q - p)
    decreases hi - p, 0
  {
    hide Next, DictNext, SkipFrom, Affordable;
    DictNextInside(mem, p, hi, mem, hi, 1, q);
    match DictNext(mem, p, hi) {
      case DictStop(_, ctx) => AffordEnd(ctx.start - p, q - p);
      case Pair(k, v, next) =>
        PairParts(mem, p, hi);
        if k.BString? {
          var m := Next(mem, p, hi).next;
          ReadValueCost(mem, v, hi, m, next);
          ReadEntriesCost(mem, next, hi, q);
          AffordMore(ReadValue(mem, v).moved, next - m - 1, next - p - 1);
          AffordStep(next - p, ReadValue(mem, v).moved, ReadEntries(mem, next, hi).moved, q - next);
        } else {
          AffordEnd(next - p, q - p);
        }
    }
  }

  lemma AffordNothing(n: nat)
    ensures Affordable(0, n)
  {
  }

  lemma AffordMore(m: nat, n: nat, n': nat)
    requires Affordable(m, n) && n <= n'
    ensures Affordable(m, n')
  {
    assert (n' + 1) * (n' + 1) >= (n + 1) * (n + 1);
  }

  lemma {:induction false} ReadValueCost(mem: Bytes, b: Benr, hi: nat, p: nat, next: nat)
    requires TokenAt(mem, b, hi, p, next)
    ensures Within(mem, b) && Affordable(ReadValue(mem, b).moved, next - p - 1)
    decreases hi - p - 1, 1
  {
    hide Next, SkipFrom, ReadItems, ReadEntries, Affordable;
    AffordNothing(next - p - 1);
    match b
    case BList(c) => ReadItemsCost(mem, p + 1, hi, next);
    case BDict(c) => ReadEntriesCost(mem, p + 1, hi, next);
    case _ =>
  }

  /** The sum in benr.h: N + (N - 2) + ... + 2. */
  function AuthorSum(n: nat): nat { if n < 2 then 0 else n + AuthorSum(n - 2) }

  lemma {:induction false} AuthorSumValue(n: nat)
    requires n % 2 == 0
    ensures 4 * AuthorSum(n) == n * n + 2 * n
  {
    if n >= 2 {
      AuthorSumValue(n - 2);
      assert (n - 2) * (n - 2) == n * n - 4 * n + 4;
    }
  }

  /**
   * For every balanced container of N bytes, well formed or not, walking its whole contents
   * moves cursors over at most N^2 / 4 bytes, and with the opening byte over no more than
   * the sum of benr.h.
   */
  lemma TraversalCost(mem: Bytes, p: nat, hi: nat, q: nat)
    requires p < hi <= |mem| && IsContainer(Next(mem, p, hi).b) && ClosesAt(mem, p + 1, hi, 1, q)
    ensures var n, moved := q - p, Read(mem, p, hi).moved;
            && 4 * moved <= n * n
            && 4 * (1 + moved) <= n * n + 2 * n
            && (n % 2 == 0 ==> 1 + moved <= AuthorSum(n))
  {
    hide ReadValue, SkipFrom;
    var n := q - p;
    ReadValueCost(mem, Next(mem, p, hi).b, hi, p, q);
    if n % 2 == 0 { AuthorSumValue(n); }
  }

  /** The closed form printed under the sum in benr.h is the sum only for N <= 2. */
  lemma {:induction false} ClosedFormIffTiny(n: nat)
    requires n % 2 == 0
    ensures var h := n / 2;
            h * h * (h * h + 1) == AuthorSum(n) <==> n <= 2
  {
    hide AuthorSum;
    var h := n / 2;
    HalfSum(h);
    assert n == 2 * h;
    if h >= 2 { FourthPowerIsLarge(h); }
  }

  lemma {:induction false} HalfSum(h: nat)
    ensures AuthorSum(2 * h) == h * h + h
  {
    if h > 0 {
      HalfSum(h - 1);
      assert 2 * h - 2 == 2 * (h - 1);
      assert (h - 1) * (h - 1) == h * h - 2 * h + 1;
    }
  }

  lemma FourthPowerIsLarge(h: nat)
    requires h >= 2
    ensures h * h * (h * h + 1) > h * h + h
  {
    var s := h * h;
    assert s >= 2 * h;
    assert s * (s + 1) >= 4 * (s + 1);
  }

  /** n lists inside one another. */
  function Nest(n: nat): Tree {
    if n == 0 then List([]) else List([Nest(n - 1)])
  }

  lemma {:induction false} NestFacts(n: nat)
    ensures Emittable(Nest(n)) && NulFree(Nest(n))
    ensures |Encode(Nest(n))| == 2 * (n + 1)
    ensures Work(Nest(n)) == (n + 1) * (n + 1)
  {
    if n > 0 {
      NestFacts(n - 1);
      var ts := [Nest(n - 1)];
      assert ts[1..] == [];
      assert EncodeItems(ts) == Encode(ts[0]) + EncodeItems([]);
      assert WorkItems(ts) == |Encode(ts[0])| + Work(ts[0]) + WorkItems([]);
      assert EmittableItems(ts) && NulFreeItems(ts);
      assert (n + 1) * (n + 1) == n * n + 2 * n + 1;
    } else {
      assert EncodeItems([]) == [] && WorkItems([]) == 1;
    }
  }

  /** The quadratic bound is attained: n + 1 nested empty lists take exactly N^2 / 4. */
  lemma {:induction false} BoundAttained(n: nat)
    ensures var mem := Emitted(Nest(n));
            4 * Read(mem, 0, |mem|).moved == |mem| * |mem|
  {
    hide Read, Emitted, Encode, Work, Nest;
    NestFacts(n);
    EmittedIffNulFree(Nest(n));
    var mem := Emitted(Nest(n));
    assert mem + [] == mem;
    RoundTrip(Nest(n), []);
    assert |mem| * |mem| == 4 * ((n + 1) * (n + 1));
  }
}

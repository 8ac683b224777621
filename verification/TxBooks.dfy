/**
  Books of a transmit queue: what sits in the ring between tail and head, and
  what the ring owes to the DMA layer and to the network stack for it.
 */
module TxBooks {
  import opened Common
  import opened RingIndex

  /** A live streaming DMA mapping. */
  datatype Dma = Dma(addr: nat, len: nat)

  /** A packet: its length and the lengths of its linear part and its fragments. */
  datatype Skb = Skb(id: nat, len: nat, bufLens: seq<nat>)

  /** struct ionic_tx_desc_info; only the first `nbufs` of `bufs` are in use. */
  datatype Info = Info(bytes: nat, nbufs: nat, bufs: seq<Dma>, skb: Option<Skb>)

  ghost predicate InfoOk(i: Info) {
    |i.bufs| == MAX_SKB_FRAGS + 1 && i.nbufs <= |i.bufs|
  }

  ghost predicate SkbOk(skb: Skb) {
    1 <= |skb.bufLens| <= MAX_SKB_FRAGS + 1
  }

  /** A slot nobody owns anything through. */
  ghost predicate Idle(i: Info) {
    i.nbufs == 0 && i.skb.None?
  }

  /** What the ring owes for one entry: live mappings to release, a packet to give back. */
  datatype Entry = Entry(own: multiset<Dma>, skb: Option<Skb>)

  ghost function EntryOf(i: Info): Entry {
    Entry(if i.nbufs <= |i.bufs| then multiset(i.bufs[..i.nbufs]) else multiset{}, i.skb)
  }

  ghost function Maps(ring: seq<Entry>): multiset<Dma> {
    if ring == [] then multiset{} else ring[0].own + Maps(ring[1..])
  }

  function SkbOf(e: Entry): seq<Skb> {
    if e.skb.Some? then [e.skb.value] else []
  }

  function LenOf(e: Entry): nat {
    if e.skb.Some? then e.skb.value.len else 0
  }

  ghost function Skbs(ring: seq<Entry>): seq<Skb> {
    if ring == [] then [] else SkbOf(ring[0]) + Skbs(ring[1..])
  }

  function Total(skbs: seq<Skb>): nat {
    if skbs == [] then 0 else skbs[0].len + Total(skbs[1..])
  }

  lemma {:induction false} MapsAdd(ring: seq<Entry>, e: Entry)
    ensures Maps(ring + [e]) == Maps(ring) + e.own
  {
    if ring == [] {
      assert ring + [e] == [e];
    } else {
      assert (ring + [e])[1..] == ring[1..] + [e];
      MapsAdd(ring[1..], e);
    }
  }

  lemma {:induction false} SkbsAdd(ring: seq<Entry>, e: Entry)
    ensures Skbs(ring + [e]) == Skbs(ring) + SkbOf(e)
  {
    if ring == [] {
      assert ring + [e] == [e];
    } else {
      assert (ring + [e])[1..] == ring[1..] + [e];
      SkbsAdd(ring[1..], e);
    }
  }

  lemma {:induction false} TotalSplit(s: seq<Skb>, t: seq<Skb>)
    ensures Total(s + t) == Total(s) + Total(t)
  {
    if s == [] {
      assert s + t == t;
    } else {
      assert (s + t)[1..] == s[1..] + t;
      TotalSplit(s[1..], t);
    }
  }

  lemma TotalAdd(s: seq<Skb>, skb: Skb)
    ensures Total(s + [skb]) == Total(s) + skb.len
  {
    TotalSplit(s, [skb]);
  }

  // ----- the ring and its slots --------------------------------------------

  /** Slots of counts `a ..` hold the entries of `ring`, oldest first. */
  ghost predicate Busy(info: seq<Info>, n: nat, a: nat, ring: seq<Entry>)
    requires |info| == n > 0
    decreases |ring|
  {
    ring == [] ||
    (InfoOk(info[Slot(a, n)]) && EntryOf(info[Slot(a, n)]) == ring[0] && Busy(info, n, a + 1, ring[1..]))
  }

  /** Slots of counts `a .. to` are idle. */
  ghost predicate Free(info: seq<Info>, n: nat, a: nat, to: nat)
    requires |info| == n > 0
    decreases if a < to then to - a else 0
  {
    a >= to || (InfoOk(info[Slot(a, n)]) && Idle(info[Slot(a, n)]) && Free(info, n, a + 1, to))
  }

  ghost predicate Shape(info: seq<Info>, n: nat, cleaned: nat, posted: nat, ring: seq<Entry>) {
    RingSize(n) && |info| == n && posted == cleaned + |ring| < cleaned + n
  }

  /** Slot contents against the queue they implement: the used slots hold `ring`,
      every other slot is idle. */
  ghost predicate Linked(info: seq<Info>, n: nat, cleaned: nat, posted: nat, ring: seq<Entry>) {
    && Shape(info, n, cleaned, posted, ring)
    && Busy(info, n, cleaned, ring)
    && Free(info, n, posted, cleaned + n)
  }

  /** The same while the head slot is being filled in and not yet posted. */
  ghost predicate Filling(info: seq<Info>, n: nat, cleaned: nat, posted: nat, ring: seq<Entry>) {
    && Shape(info, n, cleaned, posted, ring)
    && InfoOk(info[Slot(posted, n)])
    && Busy(info, n, cleaned, ring)
    && Free(info, n, posted + 1, cleaned + n)
  }

  /** The same while the tail slot is being cleaned. */
  ghost predicate Draining(info: seq<Info>, n: nat, cleaned: nat, posted: nat, ring: seq<Entry>) {
    && Shape(info, n, cleaned, posted, ring)
    && ring != []
    && InfoOk(info[Slot(cleaned, n)])
    && Busy(info, n, cleaned + 1, ring[1..])
    && Free(info, n, posted, cleaned + n)
  }

  /** Writing the slot of count `c` changes no other slot less than a ring away. */
  lemma SlotFrame(info: seq<Info>, n: nat, c: nat, x: Info, a: nat)
    requires |info| == n > 0 && a != c && a < c + n && c < a + n
    ensures info[Slot(c, n) := x][Slot(a, n)] == info[Slot(a, n)]
  {
    if Slot(a, n) == Slot(c, n) {
      if a < c { SlotInjective(a, c, n); } else { SlotInjective(c, a, n); }
    }
  }

  lemma {:induction false} FreeFrame(info: seq<Info>, n: nat, a: nat, to: nat, c: nat, x: Info)
    requires |info| == n > 0 && Free(info, n, a, to)
    requires c < a && to <= c + n
    ensures Free(info[Slot(c, n) := x], n, a, to)
    decreases if a < to then to - a else 0
  {
    if a < to {
      SlotFrame(info, n, c, x, a);
      FreeFrame(info, n, a + 1, to, c, x);
    }
  }

  lemma {:induction false} AllIdle(info: seq<Info>, n: nat, a: nat, to: nat)
    requires |info| == n > 0
    requires forall i :: 0 <= i < n ==> InfoOk(info[i]) && Idle(info[i])
    ensures Free(info, n, a, to)
    decreases if a < to then to - a else 0
  {
    if a < to {
      AllIdle(info, n, a + 1, to);
    }
  }

  lemma {:induction false} FreeAdd(info: seq<Info>, n: nat, a: nat, to: nat)
    requires |info| == n > 0 && Free(info, n, a, to) && a <= to
    requires InfoOk(info[Slot(to, n)]) && Idle(info[Slot(to, n)])
    ensures Free(info, n, a, to + 1)
    decreases if a < to then to - a else 0
  {
    if a < to {
      FreeAdd(info, n, a + 1, to);
    }
  }

  lemma {:induction false} BusyFrame(info: seq<Info>, n: nat, a: nat, ring: seq<Entry>, c: nat, x: Info)
    requires |info| == n > 0 && Busy(info, n, a, ring)
    requires (c < a && a + |ring| <= c + n) || (a + |ring| <= c < a + n)
    ensures Busy(info[Slot(c, n) := x], n, a, ring)
    decreases |ring|
  {
    if ring != [] {
      SlotFrame(info, n, c, x, a);
      BusyFrame(info, n, a + 1, ring[1..], c, x);
    }
  }

  lemma {:induction false} BusyAdd(info: seq<Info>, n: nat, a: nat, ring: seq<Entry>)
    requires |info| == n > 0 && Busy(info, n, a, ring)
    requires InfoOk(info[Slot(a + |ring|, n)])
    ensures Busy(info, n, a, ring + [EntryOf(info[Slot(a + |ring|, n)])])
    decreases |ring|
  {
    var e := EntryOf(info[Slot(a + |ring|, n)]);
    if ring == [] {
      assert ring + [e] == [e];
    } else {
      BusyAdd(info, n, a + 1, ring[1..]);
      assert (ring + [e])[1..] == ring[1..] + [e];
    }
  }

  /** The ring does not see writes to the head slot. */
  lemma HeadWritten(info: seq<Info>, n: nat, cleaned: nat, posted: nat, ring: seq<Entry>, x: Info)
    requires Filling(info, n, cleaned, posted, ring) && InfoOk(x)
    ensures Filling(info[Slot(posted, n) := x], n, cleaned, posted, ring)
  {
    BusyFrame(info, n, cleaned, ring, posted, x);
    FreeFrame(info, n, posted + 1, cleaned + n, posted, x);
  }

  /** An idle head slot is as good as untouched. */
  lemma HeadOpened(info: seq<Info>, n: nat, cleaned: nat, posted: nat, ring: seq<Entry>)
    requires Linked(info, n, cleaned, posted, ring)
    ensures Filling(info, n, cleaned, posted, ring) && Idle(info[Slot(posted, n)])
  {
  }

  lemma HeadLeftIdle(info: seq<Info>, n: nat, cleaned: nat, posted: nat, ring: seq<Entry>)
    requires Filling(info, n, cleaned, posted, ring) && Idle(info[Slot(posted, n)])
    ensures Linked(info, n, cleaned, posted, ring)
  {
  }

  lemma HeadPosted(info: seq<Info>, n: nat, cleaned: nat, posted: nat, ring: seq<Entry>)
    requires Filling(info, n, cleaned, posted, ring) && posted + 1 < cleaned + n
    ensures Linked(info, n, cleaned, posted + 1, ring + [EntryOf(info[Slot(posted, n)])])
  {
    BusyAdd(info, n, cleaned, ring);
  }

  lemma TailOpened(info: seq<Info>, n: nat, cleaned: nat, posted: nat, ring: seq<Entry>)
    requires Linked(info, n, cleaned, posted, ring) && ring != []
    ensures EntryOf(info[Slot(cleaned, n)]) == ring[0]
    ensures Draining(info, n, cleaned, posted, ring)
  {
  }

  lemma TailWritten(info: seq<Info>, n: nat, cleaned: nat, posted: nat, ring: seq<Entry>, x: Info)
    requires Draining(info, n, cleaned, posted, ring) && InfoOk(x)
    ensures Draining(info[Slot(cleaned, n) := x], n, cleaned, posted, ring)
  {
    BusyFrame(info, n, cleaned + 1, ring[1..], cleaned, x);
    FreeFrame(info, n, posted, cleaned + n, cleaned, x);
  }

  lemma TailClosed(info: seq<Info>, n: nat, cleaned: nat, posted: nat, ring: seq<Entry>)
    requires Draining(info, n, cleaned, posted, ring) && Idle(info[Slot(cleaned, n)])
    ensures Linked(info, n, cleaned + 1, posted, ring[1..])
  {
    assert Slot(cleaned + n, n) == Slot(cleaned, n);
    FreeAdd(info, n, posted, cleaned + n);
  }

  // ----- the books ---------------------------------------------------------

  /**
    The entries in the ring, the mappings that exist and those lost for good,
    and the packets handed to the ring and given back, both in order.
   */
  datatype Books = Books(
    ring: seq<Entry>,
    live: multiset<Dma>, leaked: multiset<Dma>,
    entered: seq<Skb>, consumed: seq<Skb>)

  /**
    The books balance: the live mappings are exactly those of the entries in
    the ring plus what failed mappings leaked, and the packets handed in are
    those given back followed by those in the ring, in order.
   */
  ghost predicate Balanced(b: Books) {
    && b.live == Maps(b.ring) + b.leaked
    && b.entered == b.consumed + Skbs(b.ring)
  }

  /** A failed mapping adds only its leak. */
  ghost function AfterFailedMap(b: Books, leak: multiset<Dma>): Books {
    b.(live := b.live + leak, leaked := b.leaked + leak)
  }

  lemma FailedMapBalances(b: Books, leak: multiset<Dma>)
    requires Balanced(b)
    ensures Balanced(AfterFailedMap(b, leak))
  {
  }

  /** Posting an entry adds its mappings and its packet. */
  ghost function AfterPosted(b: Books, e: Entry): Books {
    b.(ring := b.ring + [e], live := b.live + e.own, entered := b.entered + SkbOf(e))
  }

  lemma PostedBalances(b: Books, e: Entry)
    requires Balanced(b)
    ensures Balanced(AfterPosted(b, e))
  {
    MapsAdd(b.ring, e);
    assert (Maps(b.ring) + b.leaked) + e.own == (Maps(b.ring) + e.own) + b.leaked;
    PostedSkbs(b, e);
  }

  lemma PostedSkbs(b: Books, e: Entry)
    requires b.entered == b.consumed + Skbs(b.ring)
    ensures b.entered + SkbOf(e) == b.consumed + Skbs(b.ring + [e])
  {
    SkbsAdd(b.ring, e);
    assert (b.consumed + Skbs(b.ring)) + SkbOf(e) == b.consumed + (Skbs(b.ring) + SkbOf(e));
  }

  /** Cleaning the oldest entry releases its mappings and gives its packet back. */
  ghost function AfterCleaned(b: Books): Books
    requires b.ring != []
  {
    b.(ring := b.ring[1..], live := b.live - b.ring[0].own, consumed := b.consumed + SkbOf(b.ring[0]))
  }

  lemma CleanedBalances(b: Books)
    requires Balanced(b) && b.ring != []
    ensures Balanced(AfterCleaned(b))
    ensures b.ring[0].own <= b.live
  {
    var own, rest := SkbOf(b.ring[0]), Skbs(b.ring[1..]);
    assert b.consumed + (own + rest) == (b.consumed + own) + rest;
  }

  lemma ConsumedBytes(b: Books)
    requires b.ring != []
    ensures Total(AfterCleaned(b).consumed) == Total(b.consumed) + LenOf(b.ring[0])
  {
    if b.ring[0].skb.Some? {
      TotalAdd(b.consumed, b.ring[0].skb.value);
    } else {
      assert b.consumed + [] == b.consumed;
    }
  }

  /** With nothing in the ring, every packet is back and no mapping is left but leaked ones. */
  lemma DrainedBooks(b: Books)
    requires Balanced(b) && b.ring == []
    ensures b.live == b.leaked && b.entered == b.consumed
  {
  }

  /** Bytes handed in less bytes given back are the bytes in the ring. */
  lemma BytesInRing(b: Books)
    requires Balanced(b)
    ensures Total(b.entered) - Total(b.consumed) == Total(Skbs(b.ring))
  {
    TotalSplit(b.consumed, Skbs(b.ring));
  }
}

/**
  The recycling cache ring and the receive queue's page operations, updated in
  place, each proved against the steps of RxPageSpec.
 */
module PageCache {
  import opened RxPageSpec
  import opened RingIndex

  /** Entries between two ring indices. */
  function Dist(head: nat, tail: nat, n: nat): nat
    requires head < n && tail < n
  {
    if tail >= head then tail - head else tail + n - head
  }

  /** `count` ring entries from index `at` on, oldest first. */
  function Walk(ring: seq<Buf>, at: nat, count: nat): (entries: seq<Buf>)
    requires at < |ring|
    ensures |entries| == count
    decreases count
  {
    if count == 0 then [] else [ring[at]] + Walk(ring, Next(at, |ring|), count - 1)
  }

  function Entries(ring: seq<Buf>, head: nat, tail: nat): (entries: seq<Buf>)
    requires head < |ring| && tail < |ring|
    ensures |entries| == Dist(head, tail, |ring|)
  {
    Walk(ring, head, Dist(head, tail, |ring|))
  }

  lemma {:induction false} WalkPut(ring: seq<Buf>, at: nat, count: nat, tail: nat, b: Buf)
    requires at < |ring| && tail < |ring| && count == Dist(at, tail, |ring|) && count + 1 < |ring|
    ensures Walk(ring[tail := b], at, count + 1) == Walk(ring, at, count) + [b]
    decreases count
  {
    if count > 0 {
      WalkPut(ring, Next(at, |ring|), count - 1, tail, b);
    } else {
      assert Walk(ring[tail := b], Next(at, |ring|), 0) == [];
    }
  }

  /** The ring refuses exactly at size - 1 entries; otherwise the entry is appended. */
  lemma PutAppends(ring: seq<Buf>, head: nat, tail: nat, b: Buf)
    requires head < |ring| && tail < |ring| && |ring| > 1
    ensures Next(tail, |ring|) == head <==> |Entries(ring, head, tail)| + 1 >= |ring|
    ensures Next(tail, |ring|) != head ==>
              Entries(ring[tail := b], head, Next(tail, |ring|)) == Entries(ring, head, tail) + [b]
  {
    if Next(tail, |ring|) != head {
      WalkPut(ring, head, Dist(head, tail, |ring|), tail, b);
    }
  }

  /** Advancing the head removes the oldest entry. */
  lemma GetPops(ring: seq<Buf>, head: nat, tail: nat)
    requires head < |ring| && tail < |ring| && |ring| > 1
    ensures head == tail <==> Entries(ring, head, tail) == []
    ensures head != tail ==>
              && Entries(ring, head, tail)[0] == ring[head]
              && Entries(ring, Next(head, |ring|), tail) == Entries(ring, head, tail)[1..]
  {
  }
}

module RxPages {
  import opened Common
  import opened RxPageSpec
  import opened RingIndex
  import opened PageCache
  import Scatter = RxScatter

  /** Slots and descriptors are as before outside `count` indices from `base` on. */
  ghost predicate SameBut(slots: seq<Buf>, dev: seq<Option<Region>>, slots0: seq<Buf>, dev0: seq<Option<Region>>,
                          base: nat, count: nat)
  {
    && |slots| == |slots0| == |dev| == |dev0|
    && forall k :: 0 <= k < |slots| && !(base <= k < base + count) ==> slots[k] == slots0[k] && dev[k] == dev0[k]
  }

  /** A slot of `size` unused bytes whose descriptor hands the first `fragLen` of them to the device. */
  ghost predicate PostedBuf(pageSize: nat, buf: Buf, d: Option<Region>, size: nat, fragLen: nat) {
    && buf.Holds? && buf.offset < pageSize && size == Scatter.BufSize(pageSize, buf.offset)
    && d == Some(Region(buf.page, buf.offset, fragLen))
  }

  ghost predicate AllPosted(pageSize: nat, slots: seq<Buf>, dev: seq<Option<Region>>, base: nat,
                            sizes: seq<nat>, lens: seq<nat>)
  {
    && |lens| == |sizes| && base + |lens| <= |slots| && |slots| == |dev|
    && forall k :: 0 <= k < |lens| ==> PostedBuf(pageSize, slots[base + k], dev[base + k], sizes[k], lens[k])
  }

  /** The descriptor at `base` hands over the scatter list of a `len`-byte frame, as far as it is written. */
  ghost predicate Filled(pageSize: nat, slots: seq<Buf>, dev: seq<Option<Region>>, base: nat, len: nat,
                         sizes: seq<nat>, lens: seq<nat>)
  {
    sizes != [] && lens == Scatter.Posted(len, sizes) && AllPosted(pageSize, slots, dev, base, sizes, lens)
  }

  lemma OneMorePosted(pageSize: nat, slots0: seq<Buf>, slots: seq<Buf>,
                      dev0: seq<Option<Region>>, dev: seq<Option<Region>>, base: nat, len: nat,
                      sizes: seq<nat>, lens: seq<nat>, size: nat, fragLen: nat)
    requires Filled(pageSize, slots0, dev0, base, len, sizes, lens)
    requires SameBut(slots, dev, slots0, dev0, base + |lens|, 1) && base + |lens| < |slots|
    requires PostedBuf(pageSize, slots[base + |lens|], dev[base + |lens|], size, fragLen)
    requires Sum(lens) < len && fragLen == Scatter.FragLen(len - Sum(lens), size)
    ensures Filled(pageSize, slots, dev, base, len, sizes + [size], lens + [fragLen])
    ensures Sum(lens + [fragLen]) == Sum(lens) + fragLen
  {
    Scatter.PostedSnoc(len, sizes, size);
  }

  lemma StillSame(slots: seq<Buf>, dev: seq<Option<Region>>, slots1: seq<Buf>, dev1: seq<Option<Region>>,
                  slots0: seq<Buf>, dev0: seq<Option<Region>>, base: nat, count: nat, i: nat)
    requires SameBut(slots1, dev1, slots0, dev0, base, count) && SameBut(slots, dev, slots1, dev1, i, 1)
    requires base <= i < base + count
    ensures SameBut(slots, dev, slots0, dev0, base, count)
  {
  }

  /** ionic_rx_buf_size of a slot, 0 without a page. */
  function SizeOf(pageSize: nat, buf: Buf): nat {
    if buf.Holds? && buf.offset <= pageSize then Scatter.BufSize(pageSize, buf.offset) else 0
  }

  /** The fragments an n-byte packet occupies in consecutive buffers. */
  function FragsOf(pageSize: nat, bufs: seq<Buf>, n: nat): seq<Region> {
    if bufs == [] || bufs[0] == NoPage then []
    else
      var k := Scatter.FragLen(n, SizeOf(pageSize, bufs[0]));
      [Region(bufs[0].page, bufs[0].offset, k)] + FragsOf(pageSize, bufs[1..], n - k)
  }

  function SizesOf(pageSize: nat, bufs: seq<Buf>): seq<nat> {
    if bufs == [] then [] else [SizeOf(pageSize, bufs[0])] + SizesOf(pageSize, bufs[1..])
  }

  function LensOf(frags: seq<Region>): seq<nat> {
    if frags == [] then [] else [frags[0].len] + LensOf(frags[1..])
  }

  /**
    An skb's fragments are exactly what an in-order device wrote: under the
    lengths posted for these buffers, fragment j has the length of the bytes
    the device put into buffer j.
   */
  lemma {:induction false} FragsAreWritten(pageSize: nat, bufs: seq<Buf>, posted: seq<nat>, n: nat)
    requires AllHold(bufs) && posted != [] && Scatter.Tapered(posted, SizesOf(pageSize, bufs))
    requires n <= Sum(posted) && n < U16
    ensures var used := Scatter.Used(n, posted);
            |used| <= |bufs| && LensOf(FragsOf(pageSize, bufs[..|used|], n)) == used
    decreases |posted|
  {
    var sizes := SizesOf(pageSize, bufs);
    var used := Scatter.Used(n, posted);
    Scatter.UsedCount(n, posted);
    SizesCount(pageSize, bufs);
    if n <= posted[0] {
      assert bufs[..1][1..] == [];
    } else {
      Scatter.SpillNeedsMore(n, posted, sizes);
      assert sizes[1..] == SizesOf(pageSize, bufs[1..]);
      FragsAreWritten(pageSize, bufs[1..], posted[1..], n - posted[0]);
      assert bufs[..|used|][1..] == bufs[1..][..|used| - 1];
    }
  }

  lemma {:induction false} SizesCount(pageSize: nat, bufs: seq<Buf>)
    ensures |SizesOf(pageSize, bufs)| == |bufs|
  {
    if bufs != [] {
      SizesCount(pageSize, bufs[1..]);
    }
  }

  lemma FragsMore(pageSize: nat, frags: seq<Region>, bufs: seq<Buf>, i: nat, len: nat)
    requires i < |bufs| && bufs[i].Holds?
    ensures var k := Scatter.FragLen(len, SizeOf(pageSize, bufs[i]));
            && |FragsOf(pageSize, [bufs[i]], len)| == 1
            && frags + FragsOf(pageSize, bufs[i..], len)
               == (frags + FragsOf(pageSize, [bufs[i]], len)) + FragsOf(pageSize, bufs[i + 1..], len - k)
  {
    assert bufs[i..][1..] == bufs[i + 1..];
    assert [bufs[i]][1..] == [];
  }

  lemma SameMore(slots: seq<Buf>, dev: seq<Option<Region>>, slots1: seq<Buf>, dev1: seq<Option<Region>>,
                 slots0: seq<Buf>, dev0: seq<Option<Region>>, base: nat, i: nat)
    requires SameBut(slots1, dev1, slots0, dev0, base, i) && SameBut(slots, dev, slots1, dev1, base + i, 1)
    ensures SameBut(slots, dev, slots0, dev0, base, i + 1)
  {
  }

  lemma ReleaseFrame(st: State, i: nat)
    requires i < |st.slots| == |st.dev|
    ensures var st' := Release(st, i);
            && SameBut(st'.slots, st'.dev, st.slots, st.dev, i, 1)
            && st'.slots[i] == NoPage && st'.dev[i] == None && st'.held == st.held
  {
  }

  lemma HoldMore(bufs: seq<Buf>, i: nat)
    requires i < |bufs| && bufs[i].Holds? && AllHold(bufs[..i])
    ensures AllHold(bufs[..i + 1])
  {
  }

  class RxQueue {
    const g: Geometry
    var slots: seq<Buf>
    var ring: seq<Buf>
    var head: nat
    var tail: nat
    // the kernel's and the device's side
    var refs: multiset<Page>
    var mapped: multiset<Page>
    var held: seq<Region>
    var dev: seq<Option<Region>>
    ghost var trace: seq<Step>

    ghost predicate Shape()
      reads this
    {
      Sound(g) && |ring| == g.cacheSize && head < |ring| && tail < |ring| && |dev| == |slots|
    }

    ghost function Abs(): State
      requires Shape()
      reads this
    {
      State(slots, Entries(ring, head, tail), refs, mapped, held, dev)
    }

    /** The queue is in a state that the steps recorded in `trace` reach from a fresh queue. */
    ghost predicate Valid()
      reads this
    {
      Shape() && Reached(g, |slots|, trace, Abs())
    }

    lemma Known()
      requires Valid()
      ensures Inv(g, Abs())
    {
      ReachedInv(g, |slots|, trace, Abs());
    }

    /** What EveryRun states, of the queue as it is. */
    lemma Safe()
      requires Valid()
      ensures DeviceSafe(Abs()) && DeviceDisjoint(Abs())
      ensures refs == RegionPages(held) + Owned(Abs()) && mapped == Owned(Abs())
      ensures forall p :: Owned(Abs())[p] <= 1
    {
      EveryRun(g, |slots|, trace, Abs());
    }

    constructor (geometry: Geometry, numBufs: nat)
      requires Sound(geometry)
      ensures g == geometry && Valid() && Abs() == Created(numBufs)
    {
      g := geometry;
      slots, dev := seq(numBufs, _ => NoPage), seq(numBufs, _ => None);
      ring := seq(geometry.cacheSize, _ => NoPage);
      head, tail := 0, 0;
      refs, mapped, held := multiset{}, multiset{}, [];
      trace := [];
      new;
      GetPops(ring, 0, 0);
      assert Abs() == Created(numBufs);
    }

    /** ionic_rx_cache_put, with the unmap its caller does on refusal */
    method CachePut(buf: Buf) returns (ok: bool)
      requires Shape() && buf.Holds?
      modifies this`ring, this`tail, this`refs, this`mapped
      ensures Shape() && Abs() == RxPageSpec.CachePut(g, old(Abs()), buf)
      ensures ok <==> |old(Abs()).cache| + 1 < g.cacheSize
    {
      PutAppends(ring, head, tail, buf);
      var tailNext := Next(tail, |ring|);
      if tailNext == head {
        mapped := Minus(mapped, buf.page);
        return false;
      }
      refs := refs + multiset{buf.page};
      ring := ring[tail := buf];
      tail := tailNext;
      return true;
    }

    /** ionic_rx_cache_get into slot i: the oldest entry, if only the cache references its page */
    method CacheGet(i: nat) returns (ok: bool)
      requires Shape() && i < |slots| && AllHold(Abs().cache)
      modifies this`slots, this`head
      ensures Shape()
      ensures ok <==> old(Abs()).cache != [] && old(refs)[old(Abs()).cache[0].page] == 1
      ensures Abs() == if !ok then old(Abs())
                       else old(Abs()).(slots := old(slots)[i := old(Abs()).cache[0]], cache := old(Abs()).cache[1..])
    {
      GetPops(ring, head, tail);
      if head == tail {
        return false;
      }
      assert Abs().cache[0].Holds?;
      if refs[ring[head].page] != 1 {
        return false;
      }
      slots := slots[i := ring[head]];
      head := Next(head, |ring|);
      return true;
    }

    /** ionic_rx_page_alloc: the cache first, then the allocator */
    method PageAlloc(i: nat, got: Option<Page>) returns (ok: bool)
      requires Shape() && i < |slots| && slots[i] == NoPage && AllHold(Abs().cache)
      modifies this`slots, this`head, this`refs, this`mapped
      ensures Shape() && |slots| == |old(slots)| && Abs() == Alloc(old(Abs()), i, got)
      ensures ok <==> slots[i].Holds?
    {
      ok := CacheGet(i);
      if !ok && got.Some? {
        var page := got.value;
        refs, mapped := refs + multiset{page}, mapped + multiset{page};
        slots := slots[i := Holds(page, 0)];
        ok := true;
      }
    }

    /** ionic_rx_buf_reuse */
    method BufReuse(i: nat, used: nat, reusable: bool) returns (keep: bool)
      requires Shape() && i < |slots| && slots[i].Holds?
      modifies this`slots, this`refs
      ensures Shape() && |slots| == |old(slots)| && (slots[i], keep) == Reuse(g, old(slots[i]), used, reusable)
      ensures slots == old(slots)[i := slots[i]]
      ensures Abs() == old(Abs()).(slots := slots,
                         refs := if keep then old(refs) + multiset{old(slots[i]).page} else old(refs))
    {
      if !reusable {
        return false;
      }
      var size := Align(used, g.split);
      slots := slots[i := slots[i].(offset := slots[i].offset + size)];
      if slots[i].offset >= PageSize(g) {
        slots := slots[i := slots[i].(offset := 0)];
        return false;
      }
      refs := refs + multiset{slots[i].page};
      return true;
    }

    /** ionic_rx_buf_complete */
    method BufComplete(i: nat, used: nat, reusable: bool)
      requires Shape() && i < |slots| && slots[i].Holds?
      modifies this`slots, this`ring, this`tail, this`refs, this`mapped
      ensures Shape() && Abs() == RxPageSpec.BufComplete(g, old(Abs()), i, used, reusable)
    {
      ghost var was := slots;
      var keep := BufReuse(i, used, reusable);
      if !keep {
        var buf := slots[i];
        slots := slots[i := NoPage];
        assert slots == was[i := NoPage];
        var _ := CachePut(buf);
      }
    }

    /** ionic_rx_add_skb_frag */
    method AddSkbFrag(i: nat, len: nat, reusable: bool)
      requires Valid() && Enabled(g, Abs(), DoAddFrag(i, len, reusable))
      modifies this
      ensures Valid() && |slots| == |old(slots)| && Abs() == AddFrag(g, old(Abs()), i, len, reusable)
    {
      RunSnoc(g, Created(|slots|), trace, DoAddFrag(i, len, reusable));
      held := held + [Region(slots[i].page, slots[i].offset, len)];
      BufComplete(i, len, reusable);
      trace := trace + [DoAddFrag(i, len, reusable)];
    }

    /** `if (!buf_info->page)` of ionic_rx_fill: give the slot a page if it has none. */
    method EnsurePage(i: nat, got: Option<Page>) returns (ok: bool)
      requires Valid() && i < |slots| && (got.Some? ==> refs[got.value] == 0)
      modifies this
      ensures Valid() && |slots| == |old(slots)|
      ensures Abs() == if old(slots)[i] == NoPage then Alloc(old(Abs()), i, got) else old(Abs())
      ensures ok <==> slots[i].Holds?
    {
      ok := true;
      if slots[i] == NoPage {
        assert AllHold(Abs().cache) by { Known(); }
        RunSnoc(g, Created(|slots|), trace, DoAlloc(i, got));
        ok := PageAlloc(i, got);
        trace := trace + [DoAlloc(i, got)];
      }
    }

    /** Write slot i's descriptor for the `remain` bytes still to cover. */
    method PostBuf(i: nat, remain: nat) returns (size: nat, fragLen: nat)
      requires Valid() && i < |slots| && slots[i].Holds?
      modifies this
      ensures Valid() && |slots| == |old(slots)| && Abs() == Post(old(Abs()), i, fragLen)
      ensures PostedBuf(PageSize(g), slots[i], dev[i], size, fragLen) && fragLen == Scatter.FragLen(remain, size)
    {
      assert InPage(g, slots[i]) by { Known(); }
      size := Scatter.BufSize(PageSize(g), slots[i].offset);
      fragLen := Scatter.FragLen(remain, size);
      RunSnoc(g, Created(|slots|), trace, DoPost(i, fragLen));
      dev := dev[i := Some(Region(slots[i].page, slots[i].offset, fragLen))];
      trace := trace + [DoPost(i, fragLen)];
    }

    /** One buffer of ionic_rx_fill. */
    method FillBuf(i: nat, remain: nat, got: Option<Page>) returns (ok: bool, size: nat, fragLen: nat)
      requires Valid() && i < |slots| && (got.Some? ==> refs[got.value] == 0)
      modifies this
      ensures Valid() && held == old(held) && SameBut(slots, dev, old(slots), old(dev), i, 1)
      ensures fragLen == if ok then Scatter.FragLen(remain, size) else 0
      ensures ok ==> PostedBuf(PageSize(g), slots[i], dev[i], size, fragLen)
      ensures !ok ==> got == None && old(slots)[i] == NoPage && Abs() == old(Abs())
    {
      size, fragLen := 0, 0;
      ok := EnsurePage(i, got);
      if ok {
        size, fragLen := PostBuf(i, remain);
      }
    }

    /** One SG turn of ionic_rx_fill: the descriptor is extended by one more element. */
    method FillNext(base: nat, len: nat, sizes: seq<nat>, lens: seq<nat>, got: Option<Page>)
      returns (ok: bool, size: nat, fragLen: nat)
      requires Valid() && base + |lens| < |slots| && (got.Some? ==> refs[got.value] == 0)
      requires Filled(PageSize(g), slots, dev, base, len, sizes, lens) && Sum(lens) < len
      modifies this
      ensures Valid() && held == old(held) && SameBut(slots, dev, old(slots), old(dev), base + |lens|, 1)
      ensures ok ==> Filled(PageSize(g), slots, dev, base, len, sizes + [size], lens + [fragLen])
      ensures ok ==> Sum(lens + [fragLen]) == Sum(lens) + fragLen <= len
    {
      ok, size, fragLen := FillBuf(base + |lens|, len - Sum(lens), got);
      if ok {
        OneMorePosted(PageSize(g), old(slots), slots, old(dev), dev, base, len, sizes, lens, size, fragLen);
      }
    }

    /**
      ionic_rx_fill for one descriptor, whose buffers are the slots from `base`
      on.  `got` is the page allocator: it only ever returns unreferenced pages.
      On success the device is handed exactly the scatter list of RxScatter.
     */
    method FillDesc(base: nat, maxSg: nat, len: nat, got: (multiset<Page>, nat) -> Option<Page>)
      returns (ok: bool, sizes: seq<nat>, lens: seq<nat>)
      requires Valid() && base + maxSg < |slots|
      requires forall r, k :: got(r, k).Some? ==> r[got(r, k).value] == 0
      modifies this
      ensures Valid() && held == old(held) && SameBut(slots, dev, old(slots), old(dev), base, maxSg + 1)
      ensures ok ==> Filled(PageSize(g), slots, dev, base, len, sizes, lens)
      ensures ok ==> |lens| == maxSg + 1 || Sum(lens) == len
    {
      var size, fragLen;
      ok, size, fragLen := FillBuf(base, len, got(refs, 0));
      sizes, lens := [size], [fragLen];
      assert sizes[1..] == [];
      var remain: nat := len - fragLen;
      while ok && remain > 0 && |lens| <= maxSg
        invariant Valid() && held == old(held) && SameBut(slots, dev, old(slots), old(dev), base, maxSg + 1)
        invariant ok ==> Filled(PageSize(g), slots, dev, base, len, sizes, lens)
        invariant ok ==> Sum(lens) + remain == len
        invariant ok ==> |lens| <= maxSg + 1
        decreases ok, maxSg + 1 - |lens|
      {
        ghost var slots1, dev1 := slots, dev;
        ok, size, fragLen := FillNext(base, len, sizes, lens, got(refs, |lens|));
        StillSame(slots, dev, slots1, dev1, old(slots), old(dev), base, maxSg + 1, base + |lens|);
        if ok {
          sizes, lens := sizes + [size], lens + [fragLen];
          remain := remain - fragLen;
        }
      }
    }

    /** The device has completed a descriptor: its `count` buffers are the driver's again. */
    method DeviceDone(base: nat, count: nat)
      requires Valid() && base + count <= |slots|
      modifies this`dev, this`trace
      ensures Valid() && |dev| == |slots|
      ensures forall k :: 0 <= k < |dev| ==> dev[k] == if base <= k < base + count then None else old(dev)[k]
    {
      var j := 0;
      while j < count
        invariant Valid() && j <= count && |dev| == |slots|
        invariant forall k :: 0 <= k < |dev| ==> dev[k] == if base <= k < base + j then None else old(dev)[k]
      {
        RunSnoc(g, Created(|slots|), trace, DoDone(base + j));
        dev := dev[base + j := None];
        trace := trace + [DoDone(base + j)];
        j := j + 1;
      }
    }

    /** The stack frees fragment j. */
    method FreeFrag(j: nat)
      requires Valid() && j < |held|
      modifies this`held, this`refs, this`trace
      ensures Valid() && held == old(held)[..j] + old(held)[j + 1..]
    {
      RunSnoc(g, Created(|slots|), trace, DoFree(j));
      refs := Minus(refs, held[j].page);
      held := held[..j] + held[j + 1..];
      trace := trace + [DoFree(j)];
    }

    /** dev_kfree_skb on the newest skb: all its fragments go. */
    method FreeNewest(count: nat)
      requires Valid() && count <= |held|
      modifies this`held, this`refs, this`trace
      ensures Valid() && held == old(held)[..|old(held)| - count]
    {
      var j := 0;
      while j < count
        invariant Valid() && j <= count && held == old(held)[..|old(held)| - j]
      {
        FreeFrag(|held| - 1);
        j := j + 1;
      }
    }

    /** One fragment of ionic_rx_build_skb: what is left of the packet, as far as the buffer reaches. */
    method GatherBuf(i: nat, len: nat, reusable: bool) returns (fragLen: nat)
      requires Valid() && i < |slots| && slots[i].Holds? && dev[i] == None
      modifies this
      ensures Valid() && SameBut(slots, dev, old(slots), old(dev), i, 1) && dev == old(dev)
      ensures held == old(held) + FragsOf(PageSize(g), [old(slots)[i]], len)
      ensures fragLen == Scatter.FragLen(len, SizeOf(PageSize(g), old(slots)[i]))
    {
      assert InPage(g, slots[i]) by { Known(); }
      fragLen := Scatter.FragLen(len, Scatter.BufSize(PageSize(g), slots[i].offset));
      AddSkbFrag(i, fragLen, reusable);
    }

    /** One turn of the gather loop of ionic_rx_build_skb, on buffer i of `bufs`. */
    method GatherNext(base: nat, i: nat, len: nat, reusable: Page -> bool, ghost bufs: seq<Buf>) returns (rest: nat)
      requires Valid() && i < |bufs| && base + i < |slots|
      requires bufs[i] == slots[base + i] && bufs[i].Holds? && dev[base + i] == None
      modifies this
      ensures Valid() && SameBut(slots, dev, old(slots), old(dev), base + i, 1) && dev == old(dev)
      ensures old(held) <= held && |held| == |old(held)| + 1
      ensures held + FragsOf(PageSize(g), bufs[i + 1..], rest) == old(held) + FragsOf(PageSize(g), bufs[i..], len)
    {
      FragsMore(PageSize(g), held, bufs, i, len);
      var page := slots[base + i].page;
      var fragLen := GatherBuf(base + i, len, reusable(page));
      rest := len - fragLen;
    }

    /** The gather loop of ionic_rx_build_skb: stops early at a buffer without a page. */
    method GatherAll(base: nat, n: nat, count: nat, reusable: Page -> bool, ghost bufs: seq<Buf>) returns (i: nat)
      requires Valid() && base + count <= |slots| && bufs == slots[base..base + count]
      requires forall k :: base <= k < base + count ==> dev[k] == None
      modifies this
      ensures Valid() && SameBut(slots, dev, old(slots), old(dev), base, count) && dev == old(dev)
      ensures i <= count && AllHold(bufs[..i]) && (i < count ==> bufs[i] == NoPage)
      ensures old(held) <= held && |held| == |old(held)| + i
      ensures i == count ==> held == old(held) + FragsOf(PageSize(g), bufs, n)
    {
      var len: nat := n;
      i := 0;
      assert bufs[0..] == bufs;
      while i < count && slots[base + i].Holds?
        invariant Valid() && SameBut(slots, dev, old(slots), old(dev), base, i) && dev == old(dev)
        invariant i <= count && AllHold(bufs[..i])
        invariant old(held) <= held && |held| == |old(held)| + i
        invariant held + FragsOf(PageSize(g), bufs[i..], len) == old(held) + FragsOf(PageSize(g), bufs, n)
        decreases count - i
      {
        assert bufs[i] == slots[base + i];
        HoldMore(bufs, i);
        ghost var slots1 := slots;
        len := GatherNext(base, i, len, reusable, bufs);
        SameMore(slots, dev, slots1, dev, old(slots), old(dev), base, i);
        i := i + 1;
      }
    }

    /** ionic_rx_build_skb over the main buffer and `numSg` SG elements of a completed descriptor */
    method BuildSkb(base: nat, n: nat, numSg: nat, reusable: Page -> bool) returns (ok: bool)
      requires Valid() && base + numSg < |slots|
      requires forall k :: base <= k < base + numSg + 1 ==> dev[k] == None
      modifies this
      ensures Valid() && SameBut(slots, dev, old(slots), old(dev), base, numSg + 1) && dev == old(dev)
      ensures ok <==> AllHold(old(slots)[base..base + numSg + 1])
      ensures held == old(held) + if ok then FragsOf(PageSize(g), old(slots)[base..base + numSg + 1], n) else []
    {
      ghost var bufs := slots[base..base + numSg + 1];
      var i := GatherAll(base, n, numSg + 1, reusable, bufs);
      ok := i == numSg + 1;
      if ok {
        assert bufs[..i] == bufs;
      } else {
        assert !bufs[i].Holds?;
        FreeNewest(i);
      }
    }

    /** ionic_rx_page_release with all flags, where ionic_rx_empty finds a page; the device has stopped. */
    method PageRelease(i: nat)
      requires Valid() && i < |slots|
      modifies this
      ensures Valid() && |slots| == |old(slots)| && Abs() == Release(old(Abs()), i)
    {
      RunSnoc(g, Created(|slots|), trace, DoRelease(i));
      ReleaseSlot(i);
      trace := trace + [DoRelease(i)];
    }

    method ReleaseSlot(i: nat)
      requires Shape() && i < |slots|
      modifies this`slots, this`refs, this`mapped, this`dev
      ensures |slots| == |old(slots)| == |dev| && Abs() == Release(old(Abs()), i)
    {
      ghost var goal := Release(Abs(), i);
      dev := dev[i := None];
      if slots[i].Holds? {
        var page := slots[i].page;
        mapped, refs := Minus(mapped, page), Minus(refs, page);
        slots := slots[i := NoPage];
      }
      assert mapped == goal.mapped && refs == goal.refs;
      assert slots == goal.slots && dev == goal.dev;
    }

    /** The loop of ionic_rx_empty over all descriptors' buffers. */
    method ReleaseAll()
      requires Valid()
      modifies this
      ensures Valid() && held == old(held)
      ensures |slots| == |old(slots)| && forall k :: 0 <= k < |slots| ==> slots[k] == NoPage && dev[k] == None
    {
      var i := 0;
      while i < |slots|
        invariant Valid() && held == old(held) && |slots| == |old(slots)| && i <= |slots|
        invariant forall k :: 0 <= k < i ==> slots[k] == NoPage && dev[k] == None
      {
        ReleaseFrame(Abs(), i);
        PageRelease(i);
        i := i + 1;
      }
    }

    /** One turn of ionic_rx_cache_drain */
    method DrainHead()
      requires Valid() && head != tail
      modifies this`head, this`refs, this`mapped, this`trace
      ensures Valid() && Abs().cache == old(Abs()).cache[1..] && |old(Abs()).cache| > 0
    {
      assert Abs().cache != [] && Abs().cache[0] == ring[head] by { GetPops(ring, head, tail); }
      assert Abs().cache[0].Holds? by { Known(); }
      RunSnoc(g, Created(|slots|), trace, DoDrainOne);
      DropHead();
      trace := trace + [DoDrainOne];
    }

    method DropHead()
      requires Shape() && Abs().cache != [] && ring[head].Holds? && Abs().cache[0] == ring[head]
      modifies this`head, this`refs, this`mapped
      ensures Shape() && Abs() == DrainOne(old(Abs()))
    {
      var page := ring[head].page;
      PopHead();
      mapped, refs := Minus(mapped, page), Minus(refs, page);
    }

    method PopHead()
      requires Shape() && Abs().cache != []
      modifies this`head
      ensures Shape() && Abs() == old(Abs()).(cache := old(Abs()).cache[1..])
    {
      GetPops(ring, head, tail);
      head := Next(head, |ring|);
    }

    /** ionic_rx_cache_drain */
    method CacheDrain()
      requires Valid()
      modifies this`head, this`tail, this`refs, this`mapped, this`trace
      ensures Valid() && head == 0 && tail == 0 && Abs().cache == []
    {
      while head != tail
        invariant Valid()
        decreases |Abs().cache|
      {
        DrainHead();
      }
      GetPops(ring, head, tail);
      head, tail := 0, 0;
      GetPops(ring, head, tail);
    }

    /** ionic_rx_empty: no page stays mapped, and only unfreed skbs still reference pages. */
    method Empty()
      requires Valid()
      modifies this
      ensures Valid() && held == old(held)
      ensures mapped == multiset{} && refs == RegionPages(held)
      ensures Abs().cache == [] && forall k :: 0 <= k < |slots| ==> slots[k] == NoPage && dev[k] == None
    {
      ReleaseAll();
      CacheDrain();
      Safe();
      NoPages(slots);
    }
  }
}

/**
  Page accounting of a receive queue on values: which pages the descriptor
  slots and the recycling cache own, which are DMA mapped, how many references
  each has, and which byte ranges unfreed skbs and the device hold.
 */
module RxPageSpec {
  import opened Common

  type Page = nat

  /** ionic_buf_info: no page, or a page with the offset from which it is still unused. */
  datatype Buf = NoPage | Holds(page: Page, offset: nat)

  /** A byte range of a page: an skb fragment, or a buffer handed to the device. */
  datatype Region = Region(page: Page, off: nat, len: nat)

  /** Geometry: IONIC_PAGE_SPLIT_SZ and IONIC_PAGE_CACHE_SIZE. */
  datatype Geometry = Geometry(split: nat, cacheSize: nat)

  ghost predicate Sound(g: Geometry) {
    g.split > 0 && g.cacheSize > 1
  }

  function PageSize(g: Geometry): nat {
    4 * g.split
  }

  /**
    `refs` and `mapped` are the kernel's page reference counts and DMA mappings;
    `held` the fragments of unfreed skbs; `dev[i]` the range that slot i's
    descriptor hands to the device.
   */
  datatype State = State(slots: seq<Buf>, cache: seq<Buf>, refs: multiset<Page>, mapped: multiset<Page>,
                         held: seq<Region>, dev: seq<Option<Region>>)

  // ----- steps -----------------------------------------------------------------

  /** ALIGN(used, split) */
  function Align(used: nat, split: nat): nat
    requires split > 0
  {
    (used + split - 1) / split * split
  }

  /** One reference, or one mapping, of page p less. */
  function Minus(pages: multiset<Page>, p: Page): multiset<Page> {
    pages - multiset{p}
  }

  /** ionic_rx_page_alloc into slot i; `got` is the page a working allocation and mapping would give. */
  function Alloc(st: State, i: nat, got: Option<Page>): State
    requires i < |st.slots|
  {
    if st.cache != [] && st.cache[0].Holds? && st.refs[st.cache[0].page] == 1 then
      st.(slots := st.slots[i := st.cache[0]], cache := st.cache[1..])
    else match got
      case None => st
      case Some(p) =>
        st.(slots := st.slots[i := Holds(p, 0)], refs := st.refs + multiset{p}, mapped := st.mapped + multiset{p})
  }

  function Post(st: State, i: nat, len: nat): State
    requires i < |st.slots| && i < |st.dev| && st.slots[i].Holds?
  {
    st.(dev := st.dev[i := Some(Region(st.slots[i].page, st.slots[i].offset, len))])
  }

  function Done(st: State, i: nat): State
    requires i < |st.dev|
  {
    st.(dev := st.dev[i := None])
  }

  /** ionic_rx_cache_put */
  function CachePut(g: Geometry, st: State, buf: Buf): State
    requires buf.Holds?
  {
    if |st.cache| + 1 >= g.cacheSize then st.(mapped := Minus(st.mapped, buf.page))
    else st.(cache := st.cache + [buf], refs := st.refs + multiset{buf.page})
  }

  /** The buffer after ionic_rx_buf_reuse has consumed `used` bytes; the flag tells whether the slot keeps it. */
  function Reuse(g: Geometry, buf: Buf, used: nat, reusable: bool): (Buf, bool)
    requires buf.Holds? && Sound(g)
  {
    if !reusable then (buf, false)
    else
      var offset := buf.offset + Align(used, g.split);
      if offset >= PageSize(g) then (buf.(offset := 0), false) else (buf.(offset := offset), true)
  }

  /** ionic_rx_buf_complete: reuse the rest of the page, or pass it to the cache, or let it go. */
  function BufComplete(g: Geometry, st: State, i: nat, used: nat, reusable: bool): State
    requires i < |st.slots| && st.slots[i].Holds? && Sound(g)
  {
    var (next, keep) := Reuse(g, st.slots[i], used, reusable);
    if keep then st.(slots := st.slots[i := next], refs := st.refs + multiset{next.page})
    else CachePut(g, st.(slots := st.slots[i := NoPage]), next)
  }

  /** ionic_rx_add_skb_frag: the slot's reference goes to the skb. */
  function AddFrag(g: Geometry, st: State, i: nat, len: nat, reusable: bool): State
    requires i < |st.slots| && st.slots[i].Holds? && Sound(g)
  {
    BufComplete(g, st.(held := st.held + [Region(st.slots[i].page, st.slots[i].offset, len)]), i, len, reusable)
  }

  /** The stack takes another reference on a fragment it holds. */
  function Share(st: State, j: nat): State
    requires j < |st.held|
  {
    st.(held := st.held + [st.held[j]], refs := st.refs + multiset{st.held[j].page})
  }

  /** The stack frees a fragment. */
  function Free(st: State, j: nat): State
    requires j < |st.held|
  {
    st.(held := st.held[..j] + st.held[j + 1..], refs := Minus(st.refs, st.held[j].page))
  }

  /** ionic_rx_page_release with all flags, on slot i if it has a page. */
  function Release(st: State, i: nat): State
    requires i < |st.slots| && i < |st.dev|
  {
    match st.slots[i]
    case NoPage => Done(st, i)
    case Holds(p, _) =>
      Done(st, i).(slots := st.slots[i := NoPage], refs := Minus(st.refs, p), mapped := Minus(st.mapped, p))
  }

  /** One turn of ionic_rx_cache_drain. */
  function DrainOne(st: State): State
    requires st.cache != []
  {
    match st.cache[0]
    case NoPage => st.(cache := st.cache[1..])
    case Holds(p, _) =>
      st.(cache := st.cache[1..], refs := Minus(st.refs, p), mapped := Minus(st.mapped, p))
  }

  datatype Step =
    | DoAlloc(i: nat, got: Option<Page>)
    | DoPost(i: nat, len: nat)
    | DoDone(i: nat)
    | DoAddFrag(i: nat, len: nat, reusable: bool)
    | DoShare(j: nat)
    | DoFree(j: nat)
    | DoRelease(i: nat)
    | DoDrainOne

  /**
    When a step can happen: the allocator returns only unreferenced pages, a
    slot is filled when empty, and is gathered once the device is done with it.
   */
  predicate Enabled(g: Geometry, st: State, step: Step) {
    match step
    case DoAlloc(i, got) => i < |st.slots| && st.slots[i] == NoPage && (got.Some? ==> st.refs[got.value] == 0)
    case DoPost(i, len) =>
      i < |st.slots| && i < |st.dev| && st.slots[i].Holds? && st.slots[i].offset + len <= PageSize(g)
    case DoDone(i) => i < |st.dev|
    case DoAddFrag(i, len, _) =>
      && i < |st.slots| && i < |st.dev| && st.slots[i].Holds? && st.dev[i] == None
      && st.slots[i].offset + len <= PageSize(g)
    case DoShare(j) => j < |st.held|
    case DoFree(j) => j < |st.held|
    case DoRelease(i) => i < |st.slots| && i < |st.dev|
    case DoDrainOne => st.cache != []
  }

  function Apply(g: Geometry, st: State, step: Step): State
    requires Sound(g) && Enabled(g, st, step)
  {
    match step
    case DoAlloc(i, got) => Alloc(st, i, got)
    case DoPost(i, len) => Post(st, i, len)
    case DoDone(i) => Done(st, i)
    case DoAddFrag(i, len, reusable) => AddFrag(g, st, i, len, reusable)
    case DoShare(j) => Share(st, j)
    case DoFree(j) => Free(st, j)
    case DoRelease(i) => Release(st, i)
    case DoDrainOne => DrainOne(st)
  }

  // ----- the invariant -----------------------------------------------------------

  function PageOf(buf: Buf): multiset<Page> {
    match buf
    case NoPage => multiset{}
    case Holds(p, _) => multiset{p}
  }

  function BufPages(bufs: seq<Buf>): multiset<Page> {
    if bufs == [] then multiset{} else PageOf(bufs[0]) + BufPages(bufs[1..])
  }

  function RegionPages(regions: seq<Region>): multiset<Page> {
    if regions == [] then multiset{} else multiset{regions[0].page} + RegionPages(regions[1..])
  }

  /** Pages in slots or the cache, with multiplicity. */
  function Owned(st: State): multiset<Page> {
    BufPages(st.slots) + BufPages(st.cache)
  }

  ghost predicate Once(pages: multiset<Page>) {
    forall p :: pages[p] <= 1
  }

  ghost predicate InPage(g: Geometry, buf: Buf) {
    buf.Holds? ==> buf.offset < PageSize(g) && buf.offset % g.split == 0
  }

  ghost predicate AllInPage(g: Geometry, bufs: seq<Buf>) {
    forall i :: 0 <= i < |bufs| ==> InPage(g, bufs[i])
  }

  ghost predicate AllHold(bufs: seq<Buf>) {
    forall i :: 0 <= i < |bufs| ==> bufs[i].Holds?
  }

  /** Every fragment on the buffer's page lies below the buffer's offset. */
  ghost predicate ClearOf(buf: Buf, held: seq<Region>) {
    forall j :: 0 <= j < |held| ==> buf.Holds? && held[j].page == buf.page ==> held[j].off + held[j].len <= buf.offset
  }

  ghost predicate AllClear(bufs: seq<Buf>, held: seq<Region>) {
    forall i :: 0 <= i < |bufs| ==> ClearOf(bufs[i], held)
  }

  /** A descriptor handed over names its slot's page from the slot's offset on. */
  ghost predicate Handed(g: Geometry, buf: Buf, d: Option<Region>) {
    d.Some? ==> buf == Holds(d.value.page, d.value.off) && d.value.off + d.value.len <= PageSize(g)
  }

  ghost predicate AllHanded(g: Geometry, bufs: seq<Buf>, dev: seq<Option<Region>>) {
    |bufs| == |dev| && forall i :: 0 <= i < |bufs| ==> Handed(g, bufs[i], dev[i])
  }

  /** Reference counts, mappings and single ownership. */
  ghost predicate Accounted(st: State) {
    && st.refs == RegionPages(st.held) + Owned(st)
    && st.mapped == Owned(st)
    && Once(Owned(st))
  }

  ghost predicate Placed(g: Geometry, st: State) {
    && AllInPage(g, st.slots) && AllInPage(g, st.cache) && AllHold(st.cache) && |st.cache| < g.cacheSize
    && AllClear(st.slots, st.held)
    && AllHanded(g, st.slots, st.dev)
  }

  ghost predicate Inv(g: Geometry, st: State) {
    Accounted(st) && Placed(g, st)
  }

  // ----- counting lemmas -------------------------------------------------------------

  lemma CarryOver(h: multiset<Page>, a: multiset<Page>, b: multiset<Page>, x: multiset<Page>, y: multiset<Page>)
    requires a + x == b + y
    ensures (h + a) + x == (h + b) + y
  {
    assert (h + a) + x == h + (a + x);
    assert (h + b) + y == h + (b + y);
  }

  lemma Cancel(a: multiset<Page>, b: multiset<Page>, x: multiset<Page>)
    requires a + x == b + x
    ensures a == b
  {
    forall p
      ensures a[p] == b[p]
    {
      assert (a + x)[p] == (b + x)[p];
    }
    assert a <= b && b <= a;
  }

  lemma {:induction false} BufPagesUpdate(bufs: seq<Buf>, i: nat, b: Buf)
    requires i < |bufs|
    ensures BufPages(bufs[i := b]) + PageOf(bufs[i]) == BufPages(bufs) + PageOf(b)
  {
    var bufs' := bufs[i := b];
    if i == 0 {
      assert bufs'[1..] == bufs[1..];
    } else {
      BufPagesUpdate(bufs[1..], i - 1, b);
      assert bufs'[1..] == bufs[1..][i - 1 := b];
      CarryOver(PageOf(bufs[0]), BufPages(bufs'[1..]), BufPages(bufs[1..]), PageOf(bufs[i]), PageOf(b));
    }
  }

  /** Filling an empty slot adds its page. */
  lemma FillSlot(bufs: seq<Buf>, i: nat, b: Buf)
    requires i < |bufs| && bufs[i] == NoPage && b.Holds?
    ensures BufPages(bufs[i := b]) == BufPages(bufs) + multiset{b.page}
  {
    BufPagesUpdate(bufs, i, b);
  }

  /** Emptying a slot removes it. */
  lemma EmptySlot(bufs: seq<Buf>, i: nat)
    requires i < |bufs| && bufs[i].Holds?
    ensures BufPages(bufs) == BufPages(bufs[i := NoPage]) + multiset{bufs[i].page}
  {
    BufPagesUpdate(bufs, i, NoPage);
  }

  /** Moving the offset alone changes nothing. */
  lemma MoveOffset(bufs: seq<Buf>, i: nat, b: Buf)
    requires i < |bufs| && bufs[i].Holds? && b.Holds? && b.page == bufs[i].page
    ensures BufPages(bufs[i := b]) == BufPages(bufs)
  {
    BufPagesUpdate(bufs, i, b);
    Cancel(BufPages(bufs[i := b]), BufPages(bufs), multiset{b.page});
  }

  lemma {:induction false} BufPagesAppend(bufs: seq<Buf>, b: Buf)
    ensures BufPages(bufs + [b]) == BufPages(bufs) + PageOf(b)
  {
    if bufs == [] {
      assert (bufs + [b])[1..] == [];
    } else {
      BufPagesAppend(bufs[1..], b);
      assert (bufs + [b])[1..] == bufs[1..] + [b];
    }
  }

  lemma {:induction false} BufPagesHas(bufs: seq<Buf>, i: nat)
    requires i < |bufs| && bufs[i].Holds?
    ensures BufPages(bufs)[bufs[i].page] >= 1
  {
    if i > 0 {
      BufPagesHas(bufs[1..], i - 1);
    }
  }

  /** A page held by two entries is counted twice. */
  lemma {:induction false} BufPagesTwice(bufs: seq<Buf>, i: nat, k: nat)
    requires i < k < |bufs| && bufs[i].Holds? && bufs[k].Holds? && bufs[i].page == bufs[k].page
    ensures BufPages(bufs)[bufs[i].page] >= 2
  {
    if i == 0 {
      BufPagesHas(bufs[1..], k - 1);
    } else {
      BufPagesTwice(bufs[1..], i - 1, k - 1);
    }
  }

  lemma {:induction false} RegionPagesHas(held: seq<Region>, j: nat)
    requires j < |held|
    ensures RegionPages(held)[held[j].page] >= 1
  {
    if j > 0 {
      RegionPagesHas(held[1..], j - 1);
    }
  }

  lemma {:induction false} RegionPagesRemove(held: seq<Region>, j: nat)
    requires j < |held|
    ensures RegionPages(held) == RegionPages(held[..j] + held[j + 1..]) + multiset{held[j].page}
  {
    var rest := held[..j] + held[j + 1..];
    if j == 0 {
      assert rest == held[1..];
    } else {
      RegionPagesRemove(held[1..], j - 1);
      assert rest[1..] == held[1..][..j - 1] + held[1..][j..];
    }
  }

  lemma {:induction false} RegionPagesAdd(held: seq<Region>, r: Region)
    ensures RegionPages(held + [r]) == RegionPages(held) + multiset{r.page}
  {
    if held == [] {
      assert (held + [r])[1..] == [];
    } else {
      RegionPagesAdd(held[1..], r);
      assert (held + [r])[1..] == held[1..] + [r];
    }
  }

  /** A page no skb references carries no fragment, so every buffer on it is clear. */
  lemma UnreferencedClear(buf: Buf, held: seq<Region>)
    requires buf.Holds? && RegionPages(held)[buf.page] == 0
    ensures ClearOf(buf, held)
  {
    forall j | 0 <= j < |held|
      ensures held[j].page != buf.page
    {
      RegionPagesHas(held, j);
    }
  }

  /** Single ownership: a page in slot i is in no other slot and in no cache entry. */
  lemma SoleOwner(st: State, i: nat)
    requires Once(Owned(st)) && i < |st.slots| && st.slots[i].Holds?
    ensures forall k :: 0 <= k < |st.slots| && k != i && st.slots[k].Holds? ==> st.slots[k].page != st.slots[i].page
    ensures forall k :: 0 <= k < |st.cache| && st.cache[k].Holds? ==> st.cache[k].page != st.slots[i].page
  {
    var p := st.slots[i].page;
    assert Owned(st)[p] <= 1;
    BufPagesHas(st.slots, i);
    forall k | 0 <= k < |st.slots| && k != i && st.slots[k].Holds?
      ensures st.slots[k].page != p
    {
      if st.slots[k].page == p {
        BufPagesTwice(st.slots, if k < i then k else i, if k < i then i else k);
      }
    }
    forall k | 0 <= k < |st.cache| && st.cache[k].Holds?
      ensures st.cache[k].page != p
    {
      if st.cache[k].page == p {
        BufPagesHas(st.cache, k);
      }
    }
  }

  // ----- every step keeps the invariant ---------------------------------------------------

  /** Replacing one slot keeps the placement invariants of the others. */
  lemma PlaceSlot(g: Geometry, st: State, i: nat, b: Buf)
    requires i < |st.slots| && Placed(g, st) && InPage(g, b) && ClearOf(b, st.held) && st.dev[i] == None
    ensures Placed(g, st.(slots := st.slots[i := b]))
  {
  }

  /** An empty slot has nothing handed over. */
  lemma EmptyNotHanded(g: Geometry, st: State, i: nat)
    requires i < |st.slots| && Placed(g, st) && st.slots[i] == NoPage
    ensures st.dev[i] == None
  {
    assert Handed(g, st.slots[i], st.dev[i]);
  }

  lemma AllocKeepsInv(g: Geometry, st: State, i: nat, got: Option<Page>)
    requires Sound(g) && Inv(g, st) && Enabled(g, st, DoAlloc(i, got))
    ensures Inv(g, Alloc(st, i, got))
  {
    EmptyNotHanded(g, st, i);
    if st.cache != [] && st.cache[0].Holds? && st.refs[st.cache[0].page] == 1 {
      AllocCached(g, st, i);
    } else if got.Some? {
      AllocNew(g, st, i, got.value);
    }
  }

  lemma AllocCached(g: Geometry, st: State, i: nat)
    requires Sound(g) && Inv(g, st) && i < |st.slots| && st.slots[i] == NoPage && st.dev[i] == None
    requires st.cache != [] && st.cache[0].Holds? && st.refs[st.cache[0].page] == 1
    ensures Inv(g, st.(slots := st.slots[i := st.cache[0]], cache := st.cache[1..]))
  {
    var b := st.cache[0];
    BufPagesHas(st.cache, 0);
    UnreferencedClear(b, st.held);
    assert InPage(g, b);
    PlaceSlot(g, st, i, b);
    FromCache(st.slots, st.cache, i);
  }

  lemma FromCache(slots: seq<Buf>, cache: seq<Buf>, i: nat)
    requires i < |slots| && slots[i] == NoPage && cache != [] && cache[0].Holds?
    ensures BufPages(slots[i := cache[0]]) + BufPages(cache[1..]) == BufPages(slots) + BufPages(cache)
  {
    FillSlot(slots, i, cache[0]);
    assert BufPages(cache) == multiset{cache[0].page} + BufPages(cache[1..]);
  }

  lemma AllocNew(g: Geometry, st: State, i: nat, p: Page)
    requires Sound(g) && Inv(g, st) && i < |st.slots| && st.slots[i] == NoPage && st.dev[i] == None && st.refs[p] == 0
    ensures Inv(g, st.(slots := st.slots[i := Holds(p, 0)],
                       refs := st.refs + multiset{p}, mapped := st.mapped + multiset{p}))
  {
    var b := Holds(p, 0);
    UnreferencedClear(b, st.held);
    ZeroMod(g.split);
    PlaceSlot(g, st, i, b);
    FillSlot(st.slots, i, b);
    GainOwner(RegionPages(st.held), BufPages(st.slots), BufPages(st.cache), p);
  }

  lemma GainOwner(held: multiset<Page>, slots: multiset<Page>, cache: multiset<Page>, p: Page)
    requires Once(slots + cache) && (held + (slots + cache))[p] == 0
    ensures Once((slots + multiset{p}) + cache)
    ensures (slots + multiset{p}) + cache == (slots + cache) + multiset{p}
    ensures held + ((slots + multiset{p}) + cache) == held + (slots + cache) + multiset{p}
  {
    assert (slots + multiset{p}) + cache == (slots + cache) + multiset{p};
    forall q
      ensures ((slots + cache) + multiset{p})[q] <= 1
    {
      assert (slots + cache)[q] <= 1;
    }
  }

  lemma LoseOwner(held: multiset<Page>, slots: multiset<Page>, cache: multiset<Page>, p: Page)
    requires Once((slots + multiset{p}) + cache)
    ensures Once(slots + cache)
    ensures ((slots + multiset{p}) + cache) - multiset{p} == slots + cache
    ensures (held + ((slots + multiset{p}) + cache)) - multiset{p} == held + (slots + cache)
  {
    assert (slots + multiset{p}) + cache == (slots + cache) + multiset{p};
    forall q
      ensures (slots + cache)[q] <= 1
    {
      assert ((slots + cache) + multiset{p})[q] <= 1;
    }
  }

  lemma PostKeepsInv(g: Geometry, st: State, i: nat, len: nat)
    requires Inv(g, st) && Enabled(g, st, DoPost(i, len))
    ensures Inv(g, Post(st, i, len))
  {
    assert Owned(Post(st, i, len)) == Owned(st);
  }

  lemma DoneKeepsInv(g: Geometry, st: State, i: nat)
    requires Inv(g, st) && Enabled(g, st, DoDone(i))
    ensures Inv(g, Done(st, i))
  {
    assert Owned(Done(st, i)) == Owned(st);
  }

  lemma ModUnique(x: nat, q: nat, d: nat)
    requires d > 0 && x == q * d
    ensures x % d == 0
  {
    var e := x / d - q;
    assert e * d == 0 - x % d;
    if e >= 0 {
      MulLe(0, e, d);
    } else {
      MulLe(e, -1, d);
    }
  }

  /** Rounding up covers the bytes used and keeps offsets at split boundaries. */
  lemma AlignCovers(offset: nat, used: nat, split: nat)
    requires split > 0 && offset % split == 0
    ensures used <= Align(used, split) && (offset + Align(used, split)) % split == 0
  {
    var m := used + split - 1;
    assert m == m / split * split + m % split;
    var q := offset / split + m / split;
    assert offset + Align(used, split) == q * split;
    ModUnique(offset + Align(used, split), q, split);
  }

  /** The fragment the skb takes leaves the other slots clear, and slot i clear from its end on. */
  lemma TakenClear(st: State, i: nat, len: nat)
    requires Once(Owned(st)) && i < |st.slots| && st.slots[i].Holds? && AllClear(st.slots, st.held)
    ensures var r := Region(st.slots[i].page, st.slots[i].offset, len);
            forall k :: 0 <= k < |st.slots| && k != i ==> ClearOf(st.slots[k], st.held + [r])
    ensures var r := Region(st.slots[i].page, st.slots[i].offset, len);
            forall offset: nat :: offset >= st.slots[i].offset + len
                               ==> ClearOf(st.slots[i].(offset := offset), st.held + [r])
  {
    SoleOwner(st, i);
    var r := Region(st.slots[i].page, st.slots[i].offset, len);
    assert ClearOf(st.slots[i], st.held);
    forall k | 0 <= k < |st.slots| && k != i
      ensures ClearOf(st.slots[k], st.held + [r])
    {
      assert ClearOf(st.slots[k], st.held);
    }
  }

  /** AddFrag's effect on placement, whatever the slot is left with. */
  lemma PlaceTaken(g: Geometry, st: State, i: nat, len: nat, b: Buf)
    requires Inv(g, st) && i < |st.slots| && st.slots[i].Holds? && st.dev[i] == None && InPage(g, b)
    requires b == NoPage || (b.page == st.slots[i].page && b.offset >= st.slots[i].offset + len)
    ensures Placed(g, st.(held := st.held + [Region(st.slots[i].page, st.slots[i].offset, len)],
                          slots := st.slots[i := b]))
  {
    TakenClear(st, i, len);
    var held' := st.held + [Region(st.slots[i].page, st.slots[i].offset, len)];
    assert b.Holds? ==> b == st.slots[i].(offset := b.offset);
    assert ClearOf(b, held');
    assert AllClear(st.slots[i := b], held');
  }

  /** The slot keeps its page: one reference went to the skb, one was taken. */
  lemma KeepAccounted(st: State, i: nat, len: nat, b: Buf)
    requires Accounted(st) && i < |st.slots| && st.slots[i].Holds? && b.Holds? && b.page == st.slots[i].page
    ensures Accounted(st.(held := st.held + [Region(b.page, st.slots[i].offset, len)], slots := st.slots[i := b],
                          refs := st.refs + multiset{b.page}))
  {
    MoveOffset(st.slots, i, b);
    RegionPagesAdd(st.held, Region(b.page, st.slots[i].offset, len));
  }

  /** The page moves on to the cache, or leaves the queue unmapped. */
  lemma PutAccounted(g: Geometry, st: State, i: nat, len: nat, b: Buf)
    requires Accounted(st) && i < |st.slots| && st.slots[i].Holds? && b.Holds? && b.page == st.slots[i].page
    ensures Accounted(CachePut(g, st.(held := st.held + [Region(b.page, st.slots[i].offset, len)],
                                      slots := st.slots[i := NoPage]), b))
  {
    EmptySlot(st.slots, i);
    RegionPagesAdd(st.held, Region(b.page, st.slots[i].offset, len));
    if |st.cache| + 1 >= g.cacheSize {
      LoseOwner(RegionPages(st.held), BufPages(st.slots[i := NoPage]), BufPages(st.cache), b.page);
    } else {
      BufPagesAppend(st.cache, b);
    }
    HandToSkb(RegionPages(st.held), BufPages(st.slots[i := NoPage]), BufPages(st.cache), b.page);
  }

  lemma HandToSkb(held: multiset<Page>, slots: multiset<Page>, cache: multiset<Page>, p: Page)
    ensures held + ((slots + multiset{p}) + cache) == (held + multiset{p}) + (slots + cache)
    ensures (slots + multiset{p}) + cache == slots + (cache + multiset{p})
    ensures (held + ((slots + multiset{p}) + cache)) + multiset{p}
         == (held + multiset{p}) + (slots + (cache + multiset{p}))
  {
    assert (slots + multiset{p}) + cache == slots + (cache + multiset{p});
    assert held + ((slots + multiset{p}) + cache) == (held + multiset{p}) + (slots + cache);
  }

  lemma PutPlaced(g: Geometry, st: State, b: Buf)
    requires Sound(g) && Placed(g, st) && b.Holds? && InPage(g, b)
    ensures Placed(g, CachePut(g, st, b))
  {
  }

  /** A buffer leaves ionic_rx_buf_reuse within its page, beyond the bytes used if the slot keeps it. */
  lemma ReuseInPage(g: Geometry, buf: Buf, used: nat, reusable: bool)
    requires Sound(g) && buf.Holds? && InPage(g, buf)
    ensures var (next, keep) := Reuse(g, buf, used, reusable);
            next.Holds? && next.page == buf.page && InPage(g, next) && (keep ==> next.offset >= buf.offset + used)
  {
    AlignCovers(buf.offset, used, g.split);
    ZeroMod(g.split);
  }

  lemma AddFragKeepsInv(g: Geometry, st: State, i: nat, len: nat, reusable: bool)
    requires Sound(g) && Inv(g, st) && Enabled(g, st, DoAddFrag(i, len, reusable))
    ensures Inv(g, AddFrag(g, st, i, len, reusable))
  {
    var buf := st.slots[i];
    assert InPage(g, buf);
    ReuseInPage(g, buf, len, reusable);
    var (next, keep) := Reuse(g, buf, len, reusable);
    if keep {
      PlaceTaken(g, st, i, len, next);
      KeepAccounted(st, i, len, next);
    } else {
      PlaceTaken(g, st, i, len, NoPage);
      PutPlaced(g, st.(held := st.held + [Region(buf.page, buf.offset, len)], slots := st.slots[i := NoPage]), next);
      PutAccounted(g, st, i, len, next);
    }
  }

  /** Rounding up goes to the next split boundary, which is in the page iff the bytes end within three splits. */
  lemma AlignLeast(offset: nat, used: nat, split: nat)
    requires split > 0 && offset % split == 0
    ensures Align(used, split) < used + split
    ensures offset + Align(used, split) < 4 * split <==> offset + used <= 3 * split
  {
    AlignCovers(offset, used, split);
    var m := used + split - 1;
    assert m == m / split * split + m % split;
    var a, b := offset / split, m / split;
    assert offset == a * split && Align(used, split) == b * split;
    assert (a + b) * split == offset + Align(used, split);
    if a + b <= 3 {
      MulLe(a + b, 3, split);
    } else {
      MulLe(4, a + b, split);
    }
  }

  /** A buffer is kept iff its page is reusable and the bytes used end within three splits. */
  lemma ReuseOutcome(g: Geometry, buf: Buf, used: nat, reusable: bool)
    requires Sound(g) && buf.Holds? && InPage(g, buf)
    ensures var (next, keep), end := Reuse(g, buf, used, reusable), buf.offset + used;
            && (keep <==> reusable && end <= 3 * g.split)
            && (keep ==> next.Holds? && next.page == buf.page
                         && next.offset % g.split == 0 && end <= next.offset < end + g.split)
            && (!keep ==> next == Holds(buf.page, if reusable then 0 else buf.offset))
  {
    AlignCovers(buf.offset, used, g.split);
    AlignLeast(buf.offset, used, g.split);
  }

  /** What a hand-over does but for the slot's page: the skb has the fragment, other slots are as before. */
  ghost predicate HandedOver(st: State, i: nat, len: nat, st': State)
    requires i < |st.slots| && st.slots[i].Holds?
  {
    && |st'.slots| == |st.slots| && st'.dev == st.dev
    && st'.held == st.held + [Region(st.slots[i].page, st.slots[i].offset, len)]
    && (forall k :: 0 <= k < |st.slots| && k != i ==> st'.slots[k] == st.slots[k])
  }

  /**
    A reusable page whose fragment ends within three splits stays in its slot,
    from the first split boundary after the fragment on.
   */
  lemma AddFragKeepsPage(g: Geometry, st: State, i: nat, len: nat)
    requires Sound(g) && Inv(g, st) && Enabled(g, st, DoAddFrag(i, len, true))
    requires st.slots[i].offset + len <= 3 * g.split
    ensures var st', end := AddFrag(g, st, i, len, true), st.slots[i].offset + len;
            && HandedOver(st, i, len, st') && st'.cache == st.cache && st'.mapped == st.mapped
            && st'.slots[i].Holds? && st'.slots[i].page == st.slots[i].page
            && st'.slots[i].offset % g.split == 0 && end <= st'.slots[i].offset < end + g.split
  {
    assert InPage(g, st.slots[i]);
    ReuseOutcome(g, st.slots[i], len, true);
  }

  /**
    A page that is not reusable, or is used into its last split, leaves the slot
    for the end of the cache, or is unmapped if the cache is full.
   */
  lemma AddFragGivesUpPage(g: Geometry, st: State, i: nat, len: nat, reusable: bool)
    requires Sound(g) && Inv(g, st) && Enabled(g, st, DoAddFrag(i, len, reusable))
    requires !reusable || st.slots[i].offset + len > 3 * g.split
    ensures var st', page := AddFrag(g, st, i, len, reusable), st.slots[i].page;
            && HandedOver(st, i, len, st') && st'.slots[i] == NoPage
            && (if |st.cache| + 1 < g.cacheSize then
                  && st'.cache == st.cache + [Holds(page, if reusable then 0 else st.slots[i].offset)]
                  && st'.mapped == st.mapped
                else
                  st'.cache == st.cache && st'.mapped == Minus(st.mapped, page))
  {
    assert InPage(g, st.slots[i]);
    ReuseOutcome(g, st.slots[i], len, reusable);
  }

  /**
    Where a slot's new page comes from: the oldest cached page, exactly when the
    cache alone references it, and only otherwise the allocator.
   */
  lemma AllocOutcome(g: Geometry, st: State, i: nat, got: Option<Page>)
    requires Inv(g, st) && Enabled(g, st, DoAlloc(i, got))
    ensures var st' := Alloc(st, i, got);
            if st.cache != [] && RegionPages(st.held)[st.cache[0].page] == 0 then
              && st'.slots[i] == st.cache[0] && st'.cache == st.cache[1..]
              && st'.refs == st.refs && st'.mapped == st.mapped
            else
              && st'.cache == st.cache
              && (got.None? ==> st' == st)
              && (got.Some? ==> st'.slots[i] == Holds(got.value, 0) && st'.mapped == st.mapped + multiset{got.value})
  {
    if st.cache != [] {
      var p := st.cache[0].page;
      BufPagesHas(st.cache, 0);
      assert Owned(st)[p] == 1;
      assert st.refs[p] == RegionPages(st.held)[p] + Owned(st)[p];
    }
  }

  lemma ZeroMod(d: nat)
    requires d > 0
    ensures 0 % d == 0
  {
  }

  lemma ShareKeepsInv(g: Geometry, st: State, j: nat)
    requires Inv(g, st) && j < |st.held|
    ensures Inv(g, Share(st, j))
  {
    RegionPagesAdd(st.held, st.held[j]);
    assert Owned(Share(st, j)) == Owned(st);
    forall i | 0 <= i < |st.slots|
      ensures ClearOf(st.slots[i], st.held + [st.held[j]])
    {
      assert ClearOf(st.slots[i], st.held);
    }
  }

  lemma FreeKeepsInv(g: Geometry, st: State, j: nat)
    requires Inv(g, st) && j < |st.held|
    ensures Inv(g, Free(st, j))
  {
    RegionPagesRemove(st.held, j);
    assert Owned(Free(st, j)) == Owned(st);
    forall i | 0 <= i < |st.slots|
      ensures ClearOf(st.slots[i], Free(st, j).held)
    {
      assert ClearOf(st.slots[i], st.held);
    }
  }

  lemma ReleaseKeepsInv(g: Geometry, st: State, i: nat)
    requires Inv(g, st) && i < |st.slots|
    ensures Inv(g, Release(st, i))
  {
    var done := Done(st, i);
    DoneKeepsInv(g, st, i);
    if st.slots[i].Holds? {
      PlaceSlot(g, done, i, NoPage);
      EmptySlot(st.slots, i);
      LoseOwner(RegionPages(st.held), BufPages(st.slots[i := NoPage]), BufPages(st.cache), st.slots[i].page);
    }
  }

  lemma DrainOneKeepsInv(g: Geometry, st: State)
    requires Inv(g, st) && st.cache != []
    ensures Inv(g, DrainOne(st))
  {
    assert st.cache[0].Holds?;
    var p := st.cache[0].page;
    assert BufPages(st.cache) == multiset{p} + BufPages(st.cache[1..]);
    assert Owned(st) == (BufPages(st.slots) + multiset{p}) + BufPages(st.cache[1..]);
    LoseOwner(RegionPages(st.held), BufPages(st.slots), BufPages(st.cache[1..]), p);
  }

  lemma StepKeepsInv(g: Geometry, st: State, step: Step)
    requires Sound(g) && Inv(g, st) && Enabled(g, st, step)
    ensures Inv(g, Apply(g, st, step))
  {
    match step
    case DoAlloc(i, got) => AllocKeepsInv(g, st, i, got);
    case DoPost(i, len) => PostKeepsInv(g, st, i, len);
    case DoDone(i) => DoneKeepsInv(g, st, i);
    case DoAddFrag(i, len, reusable) => AddFragKeepsInv(g, st, i, len, reusable);
    case DoShare(j) => ShareKeepsInv(g, st, j);
    case DoFree(j) => FreeKeepsInv(g, st, j);
    case DoRelease(i) => ReleaseKeepsInv(g, st, i);
    case DoDrainOne => DrainOneKeepsInv(g, st);
  }

  // ----- what the invariant means ------------------------------------------------------------

  ghost predicate Overlap(a: Region, b: Region) {
    a.page == b.page && exists x: nat :: Covers(a, x) && Covers(b, x)
  }

  predicate Covers(r: Region, x: nat) {
    r.off <= x < r.off + r.len
  }

  /** No byte handed to the device belongs to an unfreed skb, and every page handed over is mapped. */
  ghost predicate DeviceSafe(st: State) {
    forall i :: 0 <= i < |st.dev| && st.dev[i].Some? ==>
      && st.dev[i].value.page in st.mapped
      && (forall j :: 0 <= j < |st.held| ==> !Overlap(st.dev[i].value, st.held[j]))
  }

  /** Two ranges handed to the device are on different pages. */
  ghost predicate DeviceDisjoint(st: State) {
    forall i, k :: 0 <= i < k < |st.dev| && st.dev[i].Some? && st.dev[k].Some? ==>
      st.dev[i].value.page != st.dev[k].value.page
  }

  lemma InvMeansSafe(g: Geometry, st: State)
    requires Inv(g, st)
    ensures DeviceSafe(st) && DeviceDisjoint(st)
    ensures forall p: Page :: st.mapped[p] <= 1 && st.refs[p] == RegionPages(st.held)[p] + st.mapped[p]
  {
    forall i | 0 <= i < |st.dev| && st.dev[i].Some?
      ensures st.dev[i].value.page in st.mapped
      ensures forall j :: 0 <= j < |st.held| ==> !Overlap(st.dev[i].value, st.held[j])
      ensures forall k :: i < k < |st.dev| && st.dev[k].Some? ==> st.dev[i].value.page != st.dev[k].value.page
    {
      assert Handed(g, st.slots[i], st.dev[i]);
      BufPagesHas(st.slots, i);
      assert ClearOf(st.slots[i], st.held);
      SoleOwner(st, i);
      forall k | i < k < |st.dev| && st.dev[k].Some?
        ensures st.dev[i].value.page != st.dev[k].value.page
      {
        assert Handed(g, st.slots[k], st.dev[k]);
      }
    }
  }

  function Created(n: nat): State {
    State(seq(n, _ => NoPage), [], multiset{}, multiset{}, [], seq(n, _ => None))
  }

  lemma {:induction false} NoPages(bufs: seq<Buf>)
    requires forall i :: 0 <= i < |bufs| ==> bufs[i] == NoPage
    ensures BufPages(bufs) == multiset{}
  {
    if bufs != [] {
      NoPages(bufs[1..]);
    }
  }

  lemma CreatedInv(g: Geometry, n: nat)
    requires Sound(g)
    ensures Inv(g, Created(n))
  {
    NoPages(Created(n).slots);
  }

  ghost predicate Runs(g: Geometry, st: State, steps: seq<Step>)
    requires Sound(g)
    decreases |steps|
  {
    steps == [] || (Enabled(g, st, steps[0]) && Runs(g, Apply(g, st, steps[0]), steps[1..]))
  }

  ghost function After(g: Geometry, st: State, steps: seq<Step>): State
    requires Sound(g) && Runs(g, st, steps)
    decreases |steps|
  {
    if steps == [] then st else After(g, Apply(g, st, steps[0]), steps[1..])
  }

  lemma {:induction false} RunKeepsInv(g: Geometry, st: State, steps: seq<Step>)
    requires Sound(g) && Inv(g, st) && Runs(g, st, steps)
    ensures Inv(g, After(g, st, steps))
    decreases |steps|
  {
    if steps != [] {
      StepKeepsInv(g, st, steps[0]);
      RunKeepsInv(g, Apply(g, st, steps[0]), steps[1..]);
    }
  }

  /** The state a fresh queue of n buffers is in after the given steps. */
  ghost predicate Reached(g: Geometry, n: nat, steps: seq<Step>, st: State)
    requires Sound(g)
  {
    Runs(g, Created(n), steps) && After(g, Created(n), steps) == st
  }

  lemma ReachedInv(g: Geometry, n: nat, steps: seq<Step>, st: State)
    requires Sound(g) && Reached(g, n, steps, st)
    ensures Inv(g, st)
  {
    CreatedInv(g, n);
    RunKeepsInv(g, Created(n), steps);
  }

  lemma {:induction false} RunSnoc(g: Geometry, st: State, steps: seq<Step>, step: Step)
    requires Sound(g) && Runs(g, st, steps) && Enabled(g, After(g, st, steps), step)
    ensures Runs(g, st, steps + [step])
    ensures After(g, st, steps + [step]) == Apply(g, After(g, st, steps), step)
    decreases |steps|
  {
    var all := steps + [step];
    if steps == [] {
      assert all[1..] == [];
      assert Runs(g, Apply(g, st, step), []);
    } else {
      assert all[0] == steps[0] && all[1..] == steps[1..] + [step];
      RunSnoc(g, Apply(g, st, steps[0]), steps[1..], step);
    }
  }

  /**
    Every run from a fresh queue, in every interleaving of driver, device and
    stack: what the device may write never overlaps an unfreed skb, no page has
    two owners, and references and mappings are accounted for exactly.
   */
  lemma EveryRun(g: Geometry, n: nat, steps: seq<Step>, st: State)
    requires Sound(g) && Reached(g, n, steps, st)
    ensures DeviceSafe(st) && DeviceDisjoint(st)
    ensures st.refs == RegionPages(st.held) + Owned(st)
    ensures st.mapped == Owned(st)
    ensures forall p :: Owned(st)[p] <= 1
  {
    ReachedInv(g, n, steps, st);
    InvMeansSafe(g, st);
  }
}

/**
  ionic_tx, ionic_tx_tso, ionic_tx_service and ionic_tx_empty on one queue.

  The DMA layer and the stack appear as ghost books: `live` holds the mappings
  that exist, `entered` the packets handed to the ring and `consumed` the
  packets given back, both in order.  Which descriptors a completion covers is
  the completion queue's business (module TxCompletion).
 */
module TxQueue {
  import opened Common
  import opened RingIndex
  import opened TxBooks

  /** dma_map_single / skb_frag_dma_map followed by dma_mapping_error. */
  datatype MapResult = MapError | Mapped(addr: nat)

  /** ionic_tx_map_single and ionic_tx_map_frag return 0 for an error, so a mapping at address 0 looks like one. */
  predicate Usable(r: MapResult) {
    r.Mapped? && r.addr != 0
  }

  predicate AllUsable(results: seq<MapResult>) {
    results == [] || (Usable(results[0]) && AllUsable(results[1..]))
  }

  /**
    What a failed mapping leaves behind: nothing, unless the first result the
    driver takes for an error was really a mapping at address 0.
   */
  ghost function Leak(lens: seq<nat>, results: seq<MapResult>): multiset<Dma>
    requires |lens| == |results|
  {
    if results == [] then multiset{}
    else if Usable(results[0]) then Leak(lens[1..], results[1..])
    else if results[0].Mapped? then multiset{Dma(0, lens[0])}
    else multiset{}
  }

  /** Where the mapping loop stops decides both. */
  lemma {:induction false} StopsAt(lens: seq<nat>, results: seq<MapResult>, i: nat)
    requires |lens| == |results| && i <= |results|
    requires forall j :: 0 <= j < i ==> Usable(results[j])
    requires i < |results| ==> !Usable(results[i])
    ensures AllUsable(results) <==> i == |results|
    ensures Leak(lens, results) ==
            if i < |results| && results[i].Mapped? then multiset{Dma(0, lens[i])} else multiset{}
  {
    if i > 0 {
      assert forall j :: 0 <= j < i - 1 ==> results[1..][j] == results[j + 1];
      StopsAt(lens[1..], results[1..], i - 1);
    }
  }

  /** A packet whose only buffer is mapped at address 0 is dropped, and its mapping stays. */
  lemma ZeroAddressLeaks(len: nat)
    ensures !AllUsable([Mapped(0)]) && Leak([len], [Mapped(0)]) == multiset{Dma(0, len)}
  {
    StopsAt([len], [Mapped(0)], 0);
  }

  class Queue {
    const n: nat
    var head: nat
    var tail: nat
    var info: seq<Info>
    // byte queue limits: netdev_tx_sent_queue and netdev_tx_completed_queue
    var sentBytes: nat
    var doneBytes: nat

    // absolute counts behind the two indices
    ghost var posted: nat
    ghost var cleaned: nat

    // the entries in the ring, the DMA layer and the stack
    ghost var books: Books

    /** Indices, slots and mapping books. */
    ghost predicate Sound()
      reads this
    {
      && Linked(info, n, cleaned, posted, books.ring)
      && Balanced(books)
      && head == Slot(posted, n)
      && tail == Slot(cleaned, n)
    }

    /** Between calls the stack has also been told of every byte sent and completed. */
    ghost predicate Valid()
      reads this
    {
      && Sound()
      && sentBytes == Total(books.entered)
      && doneBytes == Total(books.consumed)
    }

    /** A freshly allocated and sanitized queue. */
    constructor (n: nat)
      requires RingSize(n)
      ensures Valid() && this.n == n
      ensures posted == 0 && cleaned == 0 && books == Books([], multiset{}, multiset{}, [], [])
    {
      this.n := n;
      head, tail := 0, 0;
      info := seq(n, _ => Info(0, 0, seq(MAX_SKB_FRAGS + 1, _ => Dma(0, 0)), None));
      sentBytes, doneBytes := 0, 0;
      posted, cleaned := 0, 0;
      books := Books([], multiset{}, multiset{}, [], []);
      new;
      AllIdle(info, n, 0, n);
    }

    /** dma_unmap_single / dma_unmap_page: only a live mapping may be released. */
    ghost method Unmap(d: Dma)
      requires d in books.live
      modifies this`books
      ensures books == old(books).(live := old(books).live - multiset{d})
    {
      books := books.(live := books.live - multiset{d});
    }

    /** The mapping loop of ionic_tx_map_skb: stops at the first result it takes for an error. */
    method MapBufs(lens: seq<nat>, results: seq<MapResult>, bufs0: seq<Dma>) returns (i: nat, bufs: seq<Dma>)
      requires |lens| == |results| <= |bufs0|
      modifies this`books
      ensures i <= |lens| && |bufs| == |bufs0|
      ensures forall j :: 0 <= j < i ==> Usable(results[j]) && bufs[j] == Dma(results[j].addr, lens[j])
      ensures i < |lens| ==> !Usable(results[i])
      ensures books == old(books).(live := old(books).live + multiset(bufs[..i]))
    {
      bufs := bufs0;
      i := 0;
      while i < |lens| && Usable(results[i])
        invariant 0 <= i <= |lens| && |bufs| == |bufs0|
        invariant forall j :: 0 <= j < i ==> Usable(results[j]) && bufs[j] == Dma(results[j].addr, lens[j])
        invariant books == old(books).(live := old(books).live + multiset(bufs[..i]))
      {
        var d := Dma(results[i].addr, lens[i]);
        assert bufs[i := d][..i + 1] == bufs[..i] + [d];
        bufs := bufs[i := d];
        books := books.(live := books.live + multiset{d});
        i := i + 1;
      }
    }

    /** The unwinding loop: newest mapping first. */
    method UnwindBufs(bufs: seq<Dma>, count: nat, ghost rest: multiset<Dma>)
      requires count <= |bufs|
      requires books.live == rest + multiset(bufs[..count])
      modifies this`books
      ensures books == old(books).(live := rest)
    {
      var k := count;
      while k > 0
        invariant 0 <= k <= count
        invariant books == old(books).(live := rest + multiset(bufs[..k]))
      {
        k := k - 1;
        assert bufs[..k + 1] == bufs[..k] + [bufs[k]];
        Unmap(bufs[k]);
      }
      assert bufs[..0] == [];
    }

    /** The cleaning loop of ionic_tx_desc_unmap_bufs: linear part first. */
    method ReleaseBufs(bufs: seq<Dma>, count: nat, ghost rest: multiset<Dma>)
      requires count <= |bufs|
      requires books.live == rest + multiset(bufs[..count])
      modifies this`books
      ensures books == old(books).(live := rest)
    {
      var i := 0;
      assert bufs[..count] == bufs[0..count];
      while i < count
        invariant 0 <= i <= count
        invariant books == old(books).(live := rest + multiset(bufs[i..count]))
      {
        assert bufs[i..count] == [bufs[i]] + bufs[i + 1..count];
        Unmap(bufs[i]);
        i := i + 1;
      }
      assert bufs[count..count] == [];
    }

    /**
      ionic_tx_map_skb: map the linear part, then each fragment; on an error
      unwind the fragments already mapped and then the linear part.
     */
    method MapSkb(lens: seq<nat>, results: seq<MapResult>) returns (ok: bool)
      requires head < |info| && InfoOk(info[head]) && Idle(info[head])
      requires 1 <= |lens| == |results| <= MAX_SKB_FRAGS + 1
      modifies this`info, this`books
      ensures |info| == |old(info)| && info == old(info)[head := info[head]]
      ensures InfoOk(info[head]) && info[head].skb == None
      ensures ok <==> AllUsable(results)
      ensures ok ==> info[head].nbufs == |lens|
      ensures ok ==> forall i :: 0 <= i < |lens| ==>
                       results[i].Mapped? && info[head].bufs[i] == Dma(results[i].addr, lens[i])
      ensures ok ==> books == old(books).(live := old(books).live + EntryOf(info[head]).own)
      ensures ok ==> Leak(lens, results) == multiset{}
      ensures !ok ==> Idle(info[head])
      ensures !ok ==> books == AfterFailedMap(old(books), Leak(lens, results))
    {
      var i, bufs := MapBufs(lens, results, info[head].bufs);
      StopsAt(lens, results, i);
      if i == |lens| {
        info := info[head := info[head].(bufs := bufs, nbufs := |lens|)];
        return true;
      }
      // the driver gives up at result i; a mapping at address 0 exists all the same
      ghost var leak := Leak(lens, results);
      books := AfterFailedMap(books, leak);
      UnwindBufs(bufs, i, old(books).live + leak);
      info := info[head := info[head].(bufs := bufs)];
      return false;
    }

    /** ionic_tx_desc_unmap_bufs on slot `at`. */
    method UnmapBufs(at: nat, ghost rest: multiset<Dma>)
      requires at < |info| && InfoOk(info[at])
      requires books.live == rest + EntryOf(info[at]).own
      modifies this`info, this`books
      ensures info == old(info)[at := old(info)[at].(nbufs := 0)]
      ensures books == old(books).(live := rest)
    {
      var d := info[at];
      ReleaseBufs(d.bufs, d.nbufs, rest);
      info := info[at := d.(nbufs := 0)];
    }

    /** A queue whose head slot holds mappings that no posted entry owns yet. */
    ghost predicate MappedHead(books0: Books)
      reads this
    {
      && posted + 1 < cleaned + n
      && Filling(info, n, cleaned, posted, books.ring)
      && Balanced(books0)
      && head == Slot(posted, n)
      && tail == Slot(cleaned, n)
      && info[head].skb == None
      && books == books0.(live := books0.live + EntryOf(info[head]).own)
    }

    /** ionic_tx_map_skb on the head slot of a queue with room. */
    method MapHead(lens: seq<nat>, results: seq<MapResult>) returns (ok: bool)
      requires Sound() && posted + 1 < cleaned + n
      requires 1 <= |lens| == |results| <= MAX_SKB_FRAGS + 1
      modifies this`info, this`books
      ensures ok <==> AllUsable(results)
      ensures ok ==> MappedHead(old(books)) && Leak(lens, results) == multiset{}
      ensures !ok ==> Sound() && books == AfterFailedMap(old(books), Leak(lens, results))
    {
      HeadOpened(info, n, cleaned, posted, books.ring);
      ok := MapSkb(lens, results);
      HeadWritten(old(info), n, cleaned, posted, books.ring, info[head]);
      if !ok {
        HeadLeftIdle(info, n, cleaned, posted, books.ring);
        FailedMapBalances(old(books), Leak(lens, results));
      }
    }

    /** ionic_q_post: the head slot, whatever it owns, becomes the newest entry. */
    method Post(ghost books0: Books)
      requires Filling(info, n, cleaned, posted, books.ring) && posted + 1 < cleaned + n
      requires head == Slot(posted, n) && tail == Slot(cleaned, n)
      requires Balanced(books0) && books == books0.(live := books0.live + EntryOf(info[head]).own)
      modifies this`head, this`posted, this`books
      ensures Sound()
      ensures posted == old(posted) + 1
      ensures books == AfterPosted(books0, EntryOf(info[old(head)]))
    {
      ghost var e := EntryOf(info[head]);
      PostedBalances(books0, e);
      HeadPosted(info, n, cleaned, posted, books.ring);
      SlotNext(posted, n);
      head := Next(head, n);
      posted := posted + 1;
      books := AfterPosted(books0, e);
    }

    /** Give the packet to the mapped head slot and post the slot. */
    method PostOwner(skb: Skb, ghost books0: Books)
      requires MappedHead(books0)
      modifies this`info, this`head, this`posted, this`books
      ensures Sound()
      ensures posted == old(posted) + 1
      ensures books.live == old(books).live && books.leaked == books0.leaked
      ensures books.entered == books0.entered + [skb] && books.consumed == books0.consumed
    {
      var x := info[head].(skb := Some(skb));
      HeadWritten(info, n, cleaned, posted, books.ring, x);
      info := info[head := x];
      Post(books0);
    }

    /** The checksum error path of ionic_tx_tso: release what was just mapped. */
    method UndoMap(ghost books0: Books)
      requires MappedHead(books0)
      modifies this`info, this`books
      ensures Sound() && books == books0
    {
      HeadWritten(info, n, cleaned, posted, books.ring, info[head].(nbufs := 0));
      UnmapBufs(head, books0.live);
      HeadLeftIdle(info, n, cleaned, posted, books.ring);
    }

    /** Post an idle head slot: ionic_q_post for a later descriptor of a TSO packet. */
    method PostIdle()
      requires Sound() && posted + 1 < cleaned + n
      modifies this`head, this`posted, this`books
      ensures Sound()
      ensures posted == old(posted) + 1
      ensures books == old(books).(ring := books.ring)
    {
      HeadOpened(info, n, cleaned, posted, books.ring);
      assert EntryOf(info[head]) == Entry(multiset{}, None);
      Post(books);
    }

    /** After each TSO descriptor the driver clears nbufs of the slot the head moved to. */
    method ClearHead()
      requires Sound()
      modifies this`info
      ensures Sound()
    {
      var x := info[head].(nbufs := 0);
      HeadOpened(info, n, cleaned, posted, books.ring);
      HeadWritten(info, n, cleaned, posted, books.ring, x);
      info := info[head := x];
      HeadLeftIdle(info, n, cleaned, posted, books.ring);
    }

    method PostFollowers(count: nat)
      requires Sound() && posted + count < cleaned + n
      modifies this`info, this`head, this`posted, this`books
      ensures Sound()
      ensures posted == old(posted) + count
      ensures books == old(books).(ring := books.ring)
    {
      var i := 0;
      while i < count
        invariant 0 <= i <= count
        invariant Sound() && posted == old(posted) + i
        invariant books == old(books).(ring := books.ring)
      {
        PostIdle();
        ClearHead();
        i := i + 1;
      }
    }

    /** The posting loop of ionic_tx_tso: the first descriptor owns the packet, the others nothing. */
    method PostSegments(skb: Skb, k: nat, ghost books0: Books)
      requires MappedHead(books0) && 1 <= k && posted + k < cleaned + n
      requires sentBytes == Total(books0.entered)
      modifies this`info, this`head, this`posted, this`books, this`sentBytes
      ensures Sound()
      ensures posted == old(posted) + k
      ensures sentBytes == Total(books.entered)
      ensures books.live == old(books).live && books.leaked == books0.leaked
      ensures books.entered == books0.entered + [skb] && books.consumed == books0.consumed
    {
      TotalAdd(books.entered, skb);
      sentBytes := sentBytes + skb.len;
      PostOwner(skb, books0);
      ClearHead();
      PostFollowers(k - 1);
    }

    /** ionic_tx, reached after ionic_maybe_stop_tx found room for one descriptor. */
    method Tx(skb: Skb, results: seq<MapResult>) returns (ok: bool)
      requires Valid()
      requires SkbOk(skb) && |results| == |skb.bufLens|
      requires HasSpace(head, tail, n, 1)
      modifies this`info, this`head, this`posted, this`books, this`sentBytes
      ensures Valid()
      ensures ok <==> AllUsable(results)
      ensures posted == old(posted) + (if ok then 1 else 0)
      ensures ok ==> books.entered == old(books).entered + [skb]
      ensures !ok ==> books.entered == old(books).entered
      ensures books.consumed == old(books).consumed
      ensures books.leaked == old(books).leaked + Leak(skb.bufLens, results)
    {
      GrantedSpaceKeepsGap(posted, cleaned, n, 1);
      ok := MapHead(skb.bufLens, results);
      if ok {
        TotalAdd(books.entered, skb);
        sentBytes := sentBytes + skb.len;
        PostOwner(skb, old(books));
      }
    }

    /**
      ionic_tx_tso: `k` is the number of descriptors its segmentation emits and
      `csumErr` the outcome of preparing the TCP checksum.  Only the first
      descriptor owns the mappings and the packet.
     */
    method Tso(skb: Skb, results: seq<MapResult>, csumErr: bool, k: nat) returns (ok: bool)
      requires Valid()
      requires SkbOk(skb) && |results| == |skb.bufLens|
      requires k >= 1 && HasSpace(head, tail, n, k)
      modifies this`info, this`head, this`posted, this`books, this`sentBytes
      ensures Valid()
      ensures ok <==> AllUsable(results) && !csumErr
      ensures posted == old(posted) + (if ok then k else 0)
      ensures ok ==> books.entered == old(books).entered + [skb]
      ensures !ok ==> books.entered == old(books).entered
      ensures books.consumed == old(books).consumed
      ensures books.leaked == old(books).leaked + Leak(skb.bufLens, results)
    {
      GrantedSpaceKeepsGap(posted, cleaned, n, k);
      ok := MapHead(skb.bufLens, results);
      if ok {
        if csumErr {
          UndoMap(old(books));
          ok := false;
        } else {
          PostSegments(skb, k, old(books));
        }
      }
    }

    /** ionic_tx_clean on the tail slot: release its mappings, account and forget its packet. */
    method EmptyTail() returns (bytes: nat)
      requires Sound() && cleaned < posted
      modifies this`info, this`books
      ensures Draining(info, n, cleaned, posted, books.ring) && Idle(info[tail])
      ensures books == old(books).(live := AfterCleaned(old(books)).live)
      ensures bytes == LenOf(old(books).ring[0])
    {
      var at := tail;
      var x := info[at];
      TailOpened(info, n, cleaned, posted, books.ring);
      CleanedBalances(books);
      TailWritten(info, n, cleaned, posted, books.ring, x.(nbufs := 0));
      UnmapBufs(at, books.live - EntryOf(x).own);
      bytes := if x.skb.Some? then x.skb.value.len else 0;
      TailWritten(info, n, cleaned, posted, books.ring, info[at].(bytes := bytes, skb := None));
      info := info[at := info[at].(bytes := bytes, skb := None)];
    }

    /**
      One turn of the cleaning loop: the tail slot is cleaned, its packet
      consumed, and the tail moves on.
     */
    method CleanOne() returns (bytes: nat)
      requires Sound() && cleaned < posted
      modifies this`info, this`tail, this`cleaned, this`books
      ensures Sound()
      ensures cleaned == old(cleaned) + 1
      ensures books == AfterCleaned(old(books))
      ensures Total(books.consumed) == Total(old(books).consumed) + bytes
    {
      CleanedBalances(books);
      ConsumedBytes(books);
      bytes := EmptyTail();
      TailClosed(info, n, cleaned, posted, books.ring);
      SlotNext(cleaned, n);
      tail := Next(tail, n);
      books := AfterCleaned(old(books));
      cleaned := cleaned + 1;
    }

    /**
      The cleaning loop of ionic_tx_service: clean entries until the one whose
      index is `compIndex` has been cleaned.  `target` counts the entries up to
      and including it; the completion protocol supplies it.
     */
    method CleanThrough(compIndex: nat, ghost target: nat) returns (bytes: nat)
      requires Sound()
      requires cleaned < target <= posted && compIndex == Slot(target - 1, n)
      modifies this`info, this`tail, this`cleaned, this`books
      ensures Sound() && cleaned == target
      ensures books.entered == old(books).entered && books.leaked == old(books).leaked
      ensures Total(books.consumed) == Total(old(books).consumed) + bytes
    {
      var index := tail;
      bytes := CleanOne();
      while index != compIndex
        invariant Sound() && old(cleaned) < cleaned <= target <= posted
        invariant index == Slot(cleaned - 1, n)
        invariant books.entered == old(books).entered && books.leaked == old(books).leaked
        invariant Total(books.consumed) == Total(old(books).consumed) + bytes
        decreases target - cleaned
      {
        index := tail;
        var more := CleanOne();
        bytes := bytes + more;
      }
      assert cleaned == target by {
        SlotInjective(cleaned - 1, target - 1, n);
      }
    }

    /** The loop of ionic_tx_empty: clean the entries that were never completed. */
    method Drain() returns (bytes: nat)
      requires Sound()
      modifies this`info, this`tail, this`cleaned, this`books
      ensures Sound() && cleaned == posted && head == tail
      ensures books.entered == old(books).entered && books.leaked == old(books).leaked
      ensures Total(books.consumed) == Total(old(books).consumed) + bytes
    {
      bytes := 0;
      EmptyExact(posted, cleaned, n);
      while head != tail
        invariant Sound()
        invariant head == tail <==> cleaned == posted
        invariant books.entered == old(books).entered && books.leaked == old(books).leaked
        invariant Total(books.consumed) == Total(old(books).consumed) + bytes
        decreases posted - cleaned
      {
        var more := CleanOne();
        bytes := bytes + more;
        EmptyExact(posted, cleaned, n);
      }
    }

    /**
      ionic_tx_empty: clean whatever is left and report it.  Afterwards every
      packet ever posted has been consumed once, in order, every mapping has
      been released, and the stack has been told of as many completed bytes as
      sent ones.
     */
    method Empty()
      requires Valid()
      modifies this`info, this`tail, this`cleaned, this`books, this`doneBytes
      ensures Valid()
      ensures books.ring == [] && head == tail
      ensures books.entered == old(books).entered && books.leaked == old(books).leaked
      ensures books.consumed == books.entered
      ensures books.live == books.leaked
      ensures doneBytes == sentBytes
    {
      var bytes := Drain();
      DrainedBooks(books);
      doneBytes := doneBytes + bytes;
    }
  }
}

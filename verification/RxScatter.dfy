/**
  Receive buffers: the scatter list ionic_rx_fill posts, what an in-order device
  writes under it, and what ionic_rx_build_skb gathers from the same buffers
  afterwards.  The gather never looks at the posted lengths: it recomputes them
  from page offsets, so the two have to agree by construction.
 */
module RxScatter {
  import opened Common

  const MAX_BUF_LEN := 0xffff
  const VLAN_ETH_HLEN := 18

  /** ionic_rx_buf_size */
  function BufSize(pageSize: nat, offset: nat): nat
    requires offset <= pageSize
  {
    Min(MAX_BUF_LEN, pageSize - offset)
  }

  /** min_t(u16, remain, size): the remaining length is truncated to 16 bits first. */
  function FragLen(remain: nat, size: nat): (k: nat)
    ensures k <= remain && k <= size && k < U16
  {
    Min(remain % U16, size)
  }

  // ----- the three parties ---------------------------------------------------

  /** Lengths posted for the buffers left, with `remain` bytes still to cover. */
  function PostedRest(remain: nat, sizes: seq<nat>): seq<nat> {
    if sizes == [] || remain == 0 then []
    else [FragLen(remain, sizes[0])] + PostedRest(remain - FragLen(remain, sizes[0]), sizes[1..])
  }

  /** Lengths posted by ionic_rx_fill for a frame of `len` bytes: the main buffer always, then SG elements. */
  function Posted(len: nat, sizes: seq<nat>): seq<nat>
    requires sizes != []
  {
    var first := FragLen(len, sizes[0]);
    [first] + PostedRest(len - first, sizes[1..])
  }

  /** Bytes an in-order device puts into each buffer it uses for a packet of `n` bytes. */
  function Used(n: nat, posted: seq<nat>): seq<nat>
    requires posted != []
    decreases |posted|
  {
    if n <= posted[0] || |posted| == 1 then [Min(n, posted[0])]
    else [posted[0]] + Used(n - posted[0], posted[1..])
  }

  // ----- loops ---------------------------------------------------------------

  /** The SG loop of ionic_rx_fill for one descriptor; `sizes` are the buffers' sizes. */
  method FillDesc(len: nat, sizes: seq<nat>) returns (posted: seq<nat>)
    requires sizes != []
    ensures posted == Posted(len, sizes)
  {
    var fragLen := FragLen(len, sizes[0]);
    posted := [fragLen];
    var remain := len - fragLen;
    var j := 1;
    assert sizes[1..] == sizes[j..];
    while remain > 0 && j < |sizes|
      invariant 0 <= remain && 1 <= j <= |sizes|
      invariant Posted(len, sizes) == posted + PostedRest(remain, sizes[j..])
      decreases |sizes| - j
    {
      fragLen := FragLen(remain, sizes[j]);
      assert sizes[j..][0] == sizes[j] && sizes[j..][1..] == sizes[j + 1..];
      assert posted + ([fragLen] + PostedRest(remain - fragLen, sizes[j + 1..]))
          == (posted + [fragLen]) + PostedRest(remain - fragLen, sizes[j + 1..]);
      posted := posted + [fragLen];
      remain := remain - fragLen;
      j := j + 1;
    }
  }

  /** Buffer contents from each buffer's page offset on. */
  type Memory = seq<seq<int>>

  ghost predicate Fits(mem: Memory, sizes: seq<nat>) {
    |mem| == |sizes| && (mem == [] || (|mem[0]| == sizes[0] && Fits(mem[1..], sizes[1..])))
  }

  /** What a gather of `count` buffers takes for a packet of `n` bytes, from their sizes alone. */
  function Gather(mem: Memory, sizes: seq<nat>, n: nat, count: nat): seq<int>
    requires count <= |mem| == |sizes|
    decreases count
  {
    if count == 0 then []
    else
      var k := FragLen(n, sizes[0]);
      Prefix(mem[0], k) + Gather(mem[1..], sizes[1..], n - k, count - 1)
  }

  function Prefix(buf: seq<int>, k: nat): seq<int> {
    if k <= |buf| then buf[..k] else buf
  }

  /** The gather loop of ionic_rx_build_skb over the main buffer and `numSg` SG elements. */
  method BuildSkb(mem: Memory, sizes: seq<nat>, n: nat, numSg: nat) returns (skb: seq<int>)
    requires numSg < |mem| == |sizes|
    ensures skb == Gather(mem, sizes, n, numSg + 1)
  {
    skb := [];
    var len: nat := n;
    var i := 0;
    assert mem[0..] == mem && sizes[0..] == sizes;
    while i < numSg + 1
      invariant 0 <= i <= numSg + 1
      invariant Gather(mem, sizes, n, numSg + 1) == skb + Gather(mem[i..], sizes[i..], len, numSg + 1 - i)
    {
      var fragLen := FragLen(len, sizes[i]);
      assert sizes[i..][1..] == sizes[i + 1..] && mem[i..][1..] == mem[i + 1..];
      ghost var rest := Gather(mem[i + 1..], sizes[i + 1..], len - fragLen, numSg - i);
      assert skb + (Prefix(mem[i], fragLen) + rest) == (skb + Prefix(mem[i], fragLen)) + rest;
      skb := skb + Prefix(mem[i], fragLen);
      len := len - fragLen;
      i := i + 1;
    }
  }

  /** Memory after an in-order device has written a packet under the posted lengths. */
  ghost function Written(mem: Memory, posted: seq<nat>, packet: seq<int>): Memory
    requires |posted| <= |mem|
    decreases |posted|
  {
    if posted == [] then mem
    else
      var k := Min(|packet|, posted[0]);
      [packet[..k] + (if k <= |mem[0]| then mem[0][k..] else [])] + Written(mem[1..], posted[1..], packet[k..])
  }

  lemma {:induction false} WrittenLen(mem: Memory, posted: seq<nat>, packet: seq<int>)
    requires |posted| <= |mem|
    ensures |Written(mem, posted, packet)| == |mem|
    decreases |posted|
  {
    if posted != [] {
      WrittenLen(mem[1..], posted[1..], packet[Min(|packet|, posted[0])..]);
    }
  }

  // ----- scatter and gather agree ----------------------------------------------

  /** Posted lengths fill their buffers, except that from some buffer on nothing more follows. */
  ghost predicate Tapered(posted: seq<nat>, sizes: seq<nat>) {
    && |posted| <= |sizes|
    && (posted == [] ||
        (&& posted[0] <= sizes[0]
         && (posted[0] == sizes[0] || Sum(posted[1..]) == 0)
         && Tapered(posted[1..], sizes[1..])))
  }

  /** Once the truncated remainder has been posted, only multiples of 65536 remain and nothing more is posted. */
  lemma {:induction false} NothingMore(remain: nat, sizes: seq<nat>)
    requires remain % U16 == 0
    ensures Sum(PostedRest(remain, sizes)) == 0
    decreases |sizes|
  {
    if sizes != [] && remain > 0 {
      NothingMore(remain, sizes[1..]);
      assert PostedRest(remain, sizes)[1..] == PostedRest(remain, sizes[1..]);
    }
  }

  lemma RemainderAfter(remain: nat, size: nat)
    requires FragLen(remain, size) < size
    ensures (remain - FragLen(remain, size)) % U16 == 0
  {
  }

  lemma {:induction false} RestTapered(remain: nat, sizes: seq<nat>)
    ensures Tapered(PostedRest(remain, sizes), sizes)
    decreases |sizes|
  {
    if sizes != [] && remain > 0 {
      var k := FragLen(remain, sizes[0]);
      RestTapered(remain - k, sizes[1..]);
      assert PostedRest(remain, sizes)[1..] == PostedRest(remain - k, sizes[1..]);
      if k < sizes[0] {
        RemainderAfter(remain, sizes[0]);
        NothingMore(remain - k, sizes[1..]);
      }
    }
  }

  /** What ionic_rx_fill posts always tapers, for every frame length, even one that 16 bits cannot hold. */
  lemma PostedTapered(len: nat, sizes: seq<nat>)
    requires sizes != []
    ensures Tapered(Posted(len, sizes), sizes)
  {
    var k := FragLen(len, sizes[0]);
    RestTapered(len - k, sizes[1..]);
    assert Posted(len, sizes)[1..] == PostedRest(len - k, sizes[1..]);
    if k < sizes[0] {
      RemainderAfter(len, sizes[0]);
      NothingMore(len - k, sizes[1..]);
    }
  }

  lemma {:induction false} UsedCount(n: nat, posted: seq<nat>)
    requires posted != []
    ensures 1 <= |Used(n, posted)| <= |posted|
    decreases |posted|
  {
    if n > posted[0] && |posted| > 1 {
      UsedCount(n - posted[0], posted[1..]);
    }
  }

  /** More bytes than the first buffer takes means that a second one was posted, behind a full first. */
  lemma SpillNeedsMore(n: nat, posted: seq<nat>, sizes: seq<nat>)
    requires posted != [] && Tapered(posted, sizes) && posted[0] < n <= Sum(posted)
    ensures |posted| > 1 && posted[0] == sizes[0] && n - posted[0] <= Sum(posted[1..])
  {
    assert Sum(posted) == posted[0] + Sum(posted[1..]);
    assert Sum(posted[1..]) > 0;
    assert posted[1..] != [];
  }

  /** One step of the device: the first buffer starts with the packet's first bytes, the rest is written behind it. */
  lemma WrittenFirst(mem: Memory, sizes: seq<nat>, posted: seq<nat>, packet: seq<int>)
    requires posted != [] && Fits(mem, sizes) && Tapered(posted, sizes)
    ensures var k := Min(|packet|, posted[0]);
            var mem' := Written(mem, posted, packet);
            && |mem'| == |mem|
            && |mem'[0]| == sizes[0]
            && mem'[0][..k] == packet[..k]
            && mem'[1..] == Written(mem[1..], posted[1..], packet[k..])
  {
    WrittenLen(mem, posted, packet);
  }

  /** Under tapered lengths, gathering as many buffers as the device used gives back the packet. */
  lemma {:induction false} GatherUndoesScatter(mem: Memory, sizes: seq<nat>, posted: seq<nat>, packet: seq<int>)
    requires posted != [] && Fits(mem, sizes) && Tapered(posted, sizes)
    requires |packet| <= Sum(posted) && |packet| < U16
    ensures |Written(mem, posted, packet)| == |sizes| && |Used(|packet|, posted)| <= |sizes|
    ensures Gather(Written(mem, posted, packet), sizes, |packet|, |Used(|packet|, posted)|) == packet
    decreases |posted|
  {
    UsedCount(|packet|, posted);
    WrittenFirst(mem, sizes, posted, packet);
    var mem' := Written(mem, posted, packet);
    if |packet| <= posted[0] {
      GatherOne(mem', sizes, packet);
    } else {
      SpillNeedsMore(|packet|, posted, sizes);
      var k := posted[0];
      GatherUndoesScatter(mem[1..], sizes[1..], posted[1..], packet[k..]);
      GatherMore(mem', sizes, packet, |Used(|packet| - k, posted[1..])|);
    }
  }

  lemma GatherOne(mem: Memory, sizes: seq<nat>, packet: seq<int>)
    requires |mem| == |sizes| > 0 && |packet| <= sizes[0] == |mem[0]| && |packet| < U16
    requires mem[0][..|packet|] == packet[..|packet|]
    ensures Gather(mem, sizes, |packet|, 1) == packet
  {
    var n := |packet|;
    assert FragLen(n, sizes[0]) == n;
    assert Gather(mem, sizes, n, 1) == Prefix(mem[0], n) + Gather(mem[1..], sizes[1..], 0, 0);
  }

  lemma GatherMore(mem: Memory, sizes: seq<nat>, packet: seq<int>, more: nat)
    requires |mem| == |sizes| > more && |mem[0]| == sizes[0] < |packet| < U16
    requires mem[0] == packet[..sizes[0]]
    requires Gather(mem[1..], sizes[1..], |packet| - sizes[0], more) == packet[sizes[0]..]
    ensures Gather(mem, sizes, |packet|, more + 1) == packet
  {
    assert FragLen(|packet|, sizes[0]) == sizes[0];
    assert packet == packet[..sizes[0]] + packet[sizes[0]..];
  }

  /**
    Main result: for every MTU, every page-offset layout and every packet up to
    the posted capacity, the skb ionic_rx_build_skb assembles is the packet.
   */
  lemma SkbReproducesPacket(mtu: nat, mem: Memory, sizes: seq<nat>, packet: seq<int>)
    requires sizes != [] && Fits(mem, sizes)
    requires |packet| <= Sum(Posted(mtu + VLAN_ETH_HLEN, sizes))
    ensures var posted := Posted(mtu + VLAN_ETH_HLEN, sizes);
            && |posted| <= |mem| && |Written(mem, posted, packet)| == |sizes|
            && |Used(|packet|, posted)| <= |sizes|
            && Gather(Written(mem, posted, packet), sizes, |packet|, |Used(|packet|, posted)|) == packet
  {
    PostedTapered(mtu + VLAN_ETH_HLEN, sizes);
    Capacity(mtu + VLAN_ETH_HLEN, sizes);
    GatherUndoesScatter(mem, sizes, Posted(mtu + VLAN_ETH_HLEN, sizes), packet);
  }

  // ----- how much can be received ---------------------------------------------

  lemma TakeFrom(remain: nat, size: nat)
    ensures var k := FragLen(remain, size);
            k <= remain && (remain - k) % U16 == remain % U16 - k
  {
    var k, q := FragLen(remain, size), remain / U16;
    assert remain - k == q * U16 + (remain % U16 - k);
  }

  lemma {:induction false} RestCapacity(remain: nat, sizes: seq<nat>)
    ensures Sum(PostedRest(remain, sizes)) == Min(remain % U16, Sum(sizes))
    decreases |sizes|
  {
    if sizes != [] && remain > 0 {
      var k := FragLen(remain, sizes[0]);
      TakeFrom(remain, sizes[0]);
      RestCapacity(remain - k, sizes[1..]);
      assert PostedRest(remain, sizes)[1..] == PostedRest(remain - k, sizes[1..]);
    }
  }

  /**
    The posted capacity for every frame length and layout: the length's low 16
    bits, as far as the buffers reach.  A frame length that 16 bits hold is
    posted in full; one of 65536 posts no room at all.
   */
  lemma Capacity(len: nat, sizes: seq<nat>)
    requires sizes != []
    ensures Sum(Posted(len, sizes)) == Min(len % U16, Sum(sizes))
  {
    var k := FragLen(len, sizes[0]);
    TakeFrom(len, sizes[0]);
    RestCapacity(len - k, sizes[1..]);
    assert Posted(len, sizes)[1..] == PostedRest(len - k, sizes[1..]);
  }

  function Copies(k: nat, size: nat): seq<nat> {
    if k == 0 then [] else [size] + Copies(k - 1, size)
  }

  lemma {:induction false} SumCopies(k: nat, size: nat)
    ensures |Copies(k, size)| == k && Sum(Copies(k, size)) == k * size
  {
    if k > 0 {
      SumCopies(k - 1, size);
      assert Copies(k, size)[1..] == Copies(k - 1, size);
    }
  }

  /**
    On fresh pages, the longest frame an MTU allows, with its Ethernet header and
    one VLAN tag, finds room whenever the pages can hold it and 16 bits can count it.
   */
  lemma FullFrameFits(mtu: nat, pages: nat, pageSize: nat)
    requires pages > 0 && pageSize < U16
    ensures var frame := mtu + 14 + 4;
            var sizes := Copies(pages, BufSize(pageSize, 0));
            frame < U16 && frame <= pages * pageSize ==>
              sizes != [] && frame <= Sum(Posted(mtu + VLAN_ETH_HLEN, sizes))
  {
    SumCopies(pages, pageSize);
    Capacity(mtu + VLAN_ETH_HLEN, Copies(pages, BufSize(pageSize, 0)));
  }

  /** A frame length of 65536 posts no room at all. */
  lemma FullLengthPostsNothing(sizes: seq<nat>)
    requires sizes != []
    ensures Sum(Posted(U16, sizes)) == 0
  {
    Capacity(U16, sizes);
  }

  // ----- one more buffer -----------------------------------------------------------

  lemma {:induction false} RestSnoc(remain: nat, sizes: seq<nat>, size: nat)
    requires |PostedRest(remain, sizes)| == |sizes| && Sum(PostedRest(remain, sizes)) < remain
    ensures PostedRest(remain, sizes + [size])
         == PostedRest(remain, sizes) + [FragLen(remain - Sum(PostedRest(remain, sizes)), size)]
    decreases |sizes|
  {
    var all := sizes + [size];
    if sizes == [] {
      assert all[1..] == [];
      assert PostedRest(remain - FragLen(remain, size), []) == [];
    } else {
      var k := FragLen(remain, sizes[0]);
      assert all[0] == sizes[0] && all[1..] == sizes[1..] + [size];
      assert PostedRest(remain, sizes)[1..] == PostedRest(remain - k, sizes[1..]);
      RestSnoc(remain - k, sizes[1..], size);
    }
  }

  lemma {:induction false} SumSnoc(s: seq<nat>, x: nat)
    ensures Sum(s + [x]) == Sum(s) + x
  {
    if s == [] {
      assert (s + [x])[1..] == [];
    } else {
      SumSnoc(s[1..], x);
      assert (s + [x])[1..] == s[1..] + [x];
    }
  }

  /** While bytes remain, one more buffer extends the scatter list by one more element. */
  lemma PostedSnoc(len: nat, sizes: seq<nat>, size: nat)
    requires sizes != [] && |Posted(len, sizes)| == |sizes| && Sum(Posted(len, sizes)) < len
    ensures var posted := Posted(len, sizes);
            var k := FragLen(len - Sum(posted), size);
            Posted(len, sizes + [size]) == posted + [k] && Sum(posted + [k]) == Sum(posted) + k
  {
    var all := sizes + [size];
    var first := FragLen(len, sizes[0]);
    assert all[0] == sizes[0] && all[1..] == sizes[1..] + [size];
    assert Posted(len, sizes)[1..] == PostedRest(len - first, sizes[1..]);
    RestSnoc(len - first, sizes[1..], size);
    SumSnoc(Posted(len, sizes), FragLen(len - Sum(Posted(len, sizes)), size));
  }

  // ----- copybreak -------------------------------------------------------------

  /**
    ionic_rx_copybreak copies n bytes from the main buffer's address on: past the
    end of the buffer it copies whatever follows in memory.
   */
  function CopyBreak(buf: seq<int>, after: nat -> int, n: nat): seq<int> {
    seq(n, i requires 0 <= i < n => if i < |buf| then buf[i] else after(i - |buf|))
  }

  ghost predicate CopiesRight(mem: Memory, posted: seq<nat>, after: nat -> int, packet: seq<int>)
    requires |posted| <= |mem| && posted != []
  {
    WrittenLen(mem, posted, packet);
    CopyBreak(Written(mem, posted, packet)[0], after, |packet|) == packet
  }

  /** Memory happens to hold the packet's bytes from byte p on. */
  ghost predicate RestFollows(after: nat -> int, packet: seq<int>, p: nat) {
    forall i :: p <= i < |packet| ==> after(i - p) == packet[i]
  }

  /** A packet that does not spill is copied right; one that does only if memory happens to hold the rest of it. */
  lemma CopyBreakExact(mem: Memory, sizes: seq<nat>, posted: seq<nat>, after: nat -> int, packet: seq<int>)
    requires posted != [] && Fits(mem, sizes) && Tapered(posted, sizes) && |packet| <= Sum(posted)
    ensures CopiesRight(mem, posted, after, packet) <==> RestFollows(after, packet, posted[0])
  {
    WrittenFirst(mem, sizes, posted, packet);
    var buf := Written(mem, posted, packet)[0];
    if |packet| > posted[0] {
      SpillNeedsMore(|packet|, posted, sizes);
      assert |buf| == posted[0] && buf == buf[..posted[0]];
      CopyPast(buf, after, packet);
    } else {
      CopyWithin(buf, after, packet);
    }
  }

  lemma CopyWithin(buf: seq<int>, after: nat -> int, packet: seq<int>)
    requires |packet| <= |buf| && buf[..|packet|] == packet[..|packet|]
    ensures CopyBreak(buf, after, |packet|) == packet
  {
    forall i | 0 <= i < |packet|
      ensures buf[i] == packet[i]
    {
      assert buf[i] == buf[..|packet|][i] == packet[..|packet|][i];
    }
  }

  lemma CopyPast(buf: seq<int>, after: nat -> int, packet: seq<int>)
    requires |buf| < |packet| && buf == packet[..|buf|]
    ensures CopyBreak(buf, after, |packet|) == packet <==> RestFollows(after, packet, |buf|)
  {
    var copy := CopyBreak(buf, after, |packet|);
    assert forall i :: 0 <= i < |buf| ==> copy[i] == packet[i];
    if RestFollows(after, packet, |buf|) {
      assert forall i :: |buf| <= i < |packet| ==> copy[i] == packet[i];
    }
    if copy == packet {
      forall i | |buf| <= i < |packet|
        ensures after(i - |buf|) == packet[i]
      {
        assert copy[i] == after(i - |buf|);
      }
    }
  }

  /** Hence every packet of n bytes is copied right if and only if n bytes do not spill into an SG buffer. */
  lemma CopyBreakIff(mem: Memory, sizes: seq<nat>, posted: seq<nat>, after: nat -> int, n: nat)
    requires posted != [] && Fits(mem, sizes) && Tapered(posted, sizes) && n <= Sum(posted)
    ensures (forall packet: seq<int> :: |packet| == n ==> CopiesRight(mem, posted, after, packet)) <==> n <= posted[0]
  {
    if n <= posted[0] {
      forall packet: seq<int> | |packet| == n
        ensures CopiesRight(mem, posted, after, packet)
      {
        CopyBreakExact(mem, sizes, posted, after, packet);
      }
    } else {
      var packet := seq(n, _ => after(0) + 1);
      CopyBreakExact(mem, sizes, posted, after, packet);
      assert after(posted[0] - posted[0]) != packet[posted[0]];
      assert !CopiesRight(mem, posted, after, packet);
    }
  }

  /** A copybreak limit of at most a page split keeps such packets in the main buffer, at every split offset. */
  lemma SplitCopyBreakFits(pageSize: nat, offset: nat, len: nat, n: nat, copybreak: nat, rest: seq<nat>)
    requires pageSize % 4 == 0 && 0 < pageSize <= U16
    requires offset < pageSize && offset % (pageSize / 4) == 0
    requires n <= copybreak <= pageSize / 4
    requires n <= Sum(Posted(len, [BufSize(pageSize, offset)] + rest))
    ensures n <= Posted(len, [BufSize(pageSize, offset)] + rest)[0]
  {
    var sizes := [BufSize(pageSize, offset)] + rest;
    Capacity(len, sizes);
    RoomForOneSplit(pageSize / 4, offset);
  }

  /** A packet of n bytes stays in a main buffer at this offset, if it can be received at all. */
  ghost predicate StaysInMain(pageSize: nat, offset: nat, len: nat, rest: seq<nat>, n: nat)
    requires offset <= pageSize
  {
    var posted := Posted(len, [BufSize(pageSize, offset)] + rest);
    n <= Sum(posted) ==> n <= posted[0]
  }

  /**
    The limit is exact: with SG buffers to spill into and frames longer than a
    split, packets up to the copybreak limit stay in the main buffer at every
    split offset if and only if the limit is at most a split.
   */
  lemma CopyBreakLimitIff(pageSize: nat, len: nat, rest: seq<nat>, limit: nat)
    requires pageSize % 4 == 0 && 0 < pageSize <= U16 && Sum(rest) > 0 && len % U16 > pageSize / 4
    ensures (forall offset: nat, n: nat :: offset < pageSize && offset % (pageSize / 4) == 0 && n <= limit ==>
               StaysInMain(pageSize, offset, len, rest, n))
       <==> limit <= pageSize / 4
  {
    var split := pageSize / 4;
    if limit <= split {
      forall offset: nat, n: nat | offset < pageSize && offset % split == 0 && n <= limit
        ensures StaysInMain(pageSize, offset, len, rest, n)
      {
        if n <= Sum(Posted(len, [BufSize(pageSize, offset)] + rest)) {
          SplitCopyBreakFits(pageSize, offset, len, n, limit, rest);
        }
      }
    } else {
      LastSplitSpills(split, len, rest);
      assert !StaysInMain(pageSize, 3 * split, len, rest, split + 1);
    }
  }

  /** In the last split of a page, one byte more than a split spills. */
  lemma LastSplitSpills(split: nat, len: nat, rest: seq<nat>)
    requires 0 < 4 * split <= U16 && Sum(rest) > 0 && len % U16 > split
    ensures 3 * split % split == 0 && !StaysInMain(4 * split, 3 * split, len, rest, split + 1)
  {
    var sizes := [BufSize(4 * split, 3 * split)] + rest;
    Capacity(len, sizes);
    assert sizes[1..] == rest;
    ThreeSplits(split);
  }

  lemma ThreeSplits(split: nat)
    requires split > 0
    ensures 3 * split % split == 0
  {
    var r := 3 * split % split;
    var q := 3 * split / split;
    assert 3 * split == q * split + r;
    if q >= 4 {
      MulLe(4, q, split);
      assert false;
    } else if q <= 2 {
      MulLe(q, 2, split);
      assert false;
    }
  }

  lemma RoomForOneSplit(split: nat, offset: nat)
    requires split > 0 && offset % split == 0 && offset < 4 * split
    ensures offset <= 3 * split
  {
    var q := offset / split;
    assert offset == q * split;
    if q <= 3 {
      MulLe(q, 3, split);
    } else {
      MulLe(4, q, split);
      assert false;
    }
  }
}

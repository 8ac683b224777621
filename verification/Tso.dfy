/** ionic_tx_tso: its loops, proved against TsoSpec. */
module Tso {
  import opened Common
  import opened TsoSpec

  /** An emitted descriptor: its first data buffer, its SG list, nsge as the u8 the code counts it in. */
  datatype Desc = Desc(main: Buf, sgs: seq<Buf>, nsge: nat, sot: bool, eot: bool)

  function PiecesOf(d: Desc): seq<Buf> {
    [d.main] + d.sgs
  }

  /** The bytes a list of descriptors hands to the device, in order. */
  function Payload(descs: seq<Desc>): seq<nat> {
    if descs == [] then [] else Bytes(PiecesOf(descs[0])) + Payload(descs[1..])
  }

  lemma {:induction false} PayloadAdd(descs: seq<Desc>, d: Desc)
    ensures Payload(descs + [d]) == Payload(descs) + Bytes(PiecesOf(d))
  {
    if descs == [] {
      assert descs + [d] == [d];
      assert [d][1..] == [];
    } else {
      assert (descs + [d])[1..] == descs[1..] + [d];
      PayloadAdd(descs[1..], d);
    }
  }

  /** Where the segmentation stands: the rest of the current buffer, then the buffers from `next` on. */
  datatype Cursor = Cursor(addr: nat, rem: nat, next: nat)

  ghost predicate CursorOk(c: Cursor, bufs: seq<Buf>) {
    c.next <= |bufs|
  }

  ghost function Stream(c: Cursor, bufs: seq<Buf>): seq<nat>
    requires CursorOk(c, bufs)
  {
    Range(c.addr, c.rem) + Bytes(bufs[c.next..])
  }

  lemma {:induction false} LensDrop(bufs: seq<Buf>, i: nat)
    requires i < |bufs|
    ensures Lens(bufs[i..]) == [bufs[i].len] + Lens(bufs[i + 1..])
    ensures Bytes(bufs[i..]) == Range(bufs[i].addr, bufs[i].len) + Bytes(bufs[i + 1..])
  {
    assert bufs[i..][1..] == bufs[i + 1..];
  }

  lemma {:induction false} BytesLen(bufs: seq<Buf>)
    ensures |Bytes(bufs)| == Sum(Lens(bufs))
  {
    if bufs != [] {
      BytesLen(bufs[1..]);
      assert Lens(bufs)[1..] == Lens(bufs[1..]);
    }
  }

  /** `if (frag_rem == 0)` grab the next fragment. */
  function Entered(c: Cursor, bufs: seq<Buf>): Cursor
    requires CursorOk(c, bufs) && (c.rem == 0 ==> c.next < |bufs|)
  {
    if c.rem == 0 then Cursor(bufs[c.next].addr, bufs[c.next].len, c.next + 1) else c
  }

  function Consumed(c: Cursor, k: nat): Cursor
    requires k <= c.rem
  {
    Cursor(c.addr + k, c.rem - k, c.next)
  }

  lemma EnteredStream(c: Cursor, bufs: seq<Buf>)
    requires CursorOk(c, bufs) && (c.rem == 0 ==> c.next < |bufs|)
    ensures CursorOk(Entered(c, bufs), bufs)
    ensures Stream(Entered(c, bufs), bufs) == Stream(c, bufs)
  {
    if c.rem == 0 {
      LensDrop(bufs, c.next);
      assert Range(c.addr, 0) == [];
    }
  }

  lemma ConsumedStream(c: Cursor, bufs: seq<Buf>, k: nat)
    requires CursorOk(c, bufs) && k <= c.rem
    ensures CursorOk(Consumed(c, k), bufs)
    ensures Stream(c, bufs) == Range(c.addr, k) + Stream(Consumed(c, k), bufs)
  {
    RangeSplit(c.addr, k, c.rem - k);
  }

  /** What the lengths say about one turn of the inner loop. */
  lemma PieceTaken(c: Cursor, bufs: seq<Buf>, seg: nat)
    requires CursorOk(c, bufs) && 0 < seg <= c.rem + Sum(Lens(bufs[c.next..]))
    ensures c.rem == 0 ==> c.next < |bufs|
    ensures var e := Entered(c, bufs);
            var k := Min(e.rem, seg);
            && seg - k <= e.rem - k + Sum(Lens(bufs[e.next..]))
            && Pieces(c.rem, Lens(bufs[c.next..]), seg) == 1 + Pieces(e.rem - k, Lens(bufs[e.next..]), seg - k)
            && Left(c.rem, Lens(bufs[c.next..]), seg) == Left(e.rem - k, Lens(bufs[e.next..]), seg - k)
            && (PiecesShort(c.rem, Lens(bufs[c.next..]), seg)
                <==> k < U16 && PiecesShort(e.rem - k, Lens(bufs[e.next..]), seg - k))
  {
    if c.rem == 0 {
      assert c.next < |bufs|;
      LensDrop(bufs, c.next);
      var lens := Lens(bufs[c.next..]);
      assert lens[0] == bufs[c.next].len && lens[1..] == Lens(bufs[c.next + 1..]);
    }
  }

  /**
    The inner loop of ionic_tx_tso: use fragments until one descriptor's worth
    of bytes is named.  The pieces are exactly the next `seg` bytes, in order.
   */
  method FillDesc(bufs: seq<Buf>, start: Cursor, seg: nat) returns (pieces: seq<Buf>, end: Cursor)
    requires CursorOk(start, bufs)
    requires 0 < seg <= start.rem + Sum(Lens(bufs[start.next..]))
    ensures CursorOk(end, bufs)
    ensures Stream(start, bufs) == Bytes(pieces) + Stream(end, bufs)
    ensures |Bytes(pieces)| == seg
    ensures |pieces| == Pieces(start.rem, Lens(bufs[start.next..]), seg)
    ensures (end.rem, Lens(bufs[end.next..])) == Left(start.rem, Lens(bufs[start.next..]), seg)
    ensures Short(pieces) <==> PiecesShort(start.rem, Lens(bufs[start.next..]), seg)
  {
    pieces := [];
    end := start;
    var left: nat := seg;
    while left > 0
      invariant CursorOk(end, bufs) && left <= seg
      invariant left <= end.rem + Sum(Lens(bufs[end.next..]))
      invariant Stream(start, bufs) == Bytes(pieces) + Stream(end, bufs)
      invariant |Bytes(pieces)| == seg - left
      invariant |pieces| + Pieces(end.rem, Lens(bufs[end.next..]), left)
             == Pieces(start.rem, Lens(bufs[start.next..]), seg)
      invariant Left(end.rem, Lens(bufs[end.next..]), left) == Left(start.rem, Lens(bufs[start.next..]), seg)
      invariant Short(pieces) && PiecesShort(end.rem, Lens(bufs[end.next..]), left)
           <==> PiecesShort(start.rem, Lens(bufs[start.next..]), seg)
      decreases |bufs| - end.next + left, left
    {
      PieceTaken(end, bufs, left);
      var e := Entered(end, bufs);
      var k := Min(e.rem, left);
      PieceBytes(start, end, bufs, pieces, k);
      ShortAdd(pieces, Buf(e.addr, k));
      pieces := pieces + [Buf(e.addr, k)];
      end := Consumed(e, k);
      left := left - k;
    }
  }

  lemma PieceBytes(start: Cursor, c: Cursor, bufs: seq<Buf>, pieces: seq<Buf>, k: nat)
    requires CursorOk(start, bufs) && CursorOk(c, bufs) && (c.rem == 0 ==> c.next < |bufs|)
    requires k <= Entered(c, bufs).rem
    requires Stream(start, bufs) == Bytes(pieces) + Stream(c, bufs)
    ensures var e := Entered(c, bufs);
            var pieces' := pieces + [Buf(e.addr, k)];
            && CursorOk(Consumed(e, k), bufs)
            && Stream(start, bufs) == Bytes(pieces') + Stream(Consumed(e, k), bufs)
            && |Bytes(pieces')| == |Bytes(pieces)| + k
  {
    var e := Entered(c, bufs);
    EnteredStream(c, bufs);
    ConsumedStream(e, bufs, k);
    BytesAdd(pieces, Buf(e.addr, k));
    Regroup(Bytes(pieces), Range(e.addr, k), Stream(Consumed(e, k), bufs));
  }

  lemma Regroup(a: seq<nat>, b: seq<nat>, c: seq<nat>)
    ensures a + (b + c) == (a + b) + c
  {
  }

  // ----- descriptors ---------------------------------------------------------

  /** Lengths are stored in 16-bit fields. */
  function Stored(b: Buf): Buf {
    Buf(b.addr, b.len % U16)
  }

  function StoredAll(bufs: seq<Buf>): (stored: seq<Buf>)
    ensures |stored| == |bufs|
  {
    if bufs == [] then [] else [Stored(bufs[0])] + StoredAll(bufs[1..])
  }

  /** Every length fits its field. */
  ghost predicate Short(bufs: seq<Buf>) {
    bufs == [] || (bufs[0].len < U16 && Short(bufs[1..]))
  }

  lemma {:induction false} ShortAdd(bufs: seq<Buf>, b: Buf)
    ensures Short(bufs + [b]) <==> Short(bufs) && b.len < U16
  {
    if bufs == [] {
      assert (bufs + [b])[1..] == [];
    } else {
      assert (bufs + [b])[1..] == bufs[1..] + [b];
      ShortAdd(bufs[1..], b);
    }
  }

  /** Storing lengths keeps the bytes if all of them fit, and otherwise loses some. */
  lemma {:induction false} StoredBytes(bufs: seq<Buf>)
    ensures |Bytes(StoredAll(bufs))| <= |Bytes(bufs)|
    ensures |Bytes(StoredAll(bufs))| == |Bytes(bufs)| <==> Short(bufs)
    ensures Short(bufs) ==> StoredAll(bufs) == bufs
  {
    if bufs != [] {
      StoredBytes(bufs[1..]);
      assert StoredAll(bufs)[1..] == StoredAll(bufs[1..]);
      assert bufs[0].len % U16 == bufs[0].len <==> bufs[0].len < U16;
    }
  }

  /** ionic_tx_tso_post: the first piece is the descriptor's own buffer, the others its SG list. */
  function MakeDesc(pieces: seq<Buf>, start: bool, done: bool): Desc
    requires |pieces| >= 1
  {
    var stored := StoredAll(pieces);
    Desc(stored[0], stored[1..], (|pieces| - 1) % 256, start, done)
  }

  /** A descriptor names the pieces it was cut, which are `count` pieces of `bytes` bytes. */
  ghost predicate Carries(d: Desc, pieces: seq<Buf>, bytes: nat, count: nat) {
    && PiecesOf(d) == StoredAll(pieces)
    && |Bytes(pieces)| == bytes
    && |pieces| == count
    && d.nsge == |d.sgs| % 256
  }

  /** Descriptor by descriptor, the pieces cut and the lengths and piece counts of a specification. */
  ghost predicate Matches(descs: seq<Desc>, cuts: seq<seq<Buf>>, segs: seq<nat>, counts: seq<nat>) {
    && |descs| == |cuts| == |segs| == |counts|
    && (descs == [] ||
        (var last := |descs| - 1;
         && Carries(descs[last], cuts[last], segs[last], counts[last])
         && Matches(descs[..last], cuts[..last], segs[..last], counts[..last])))
  }

  /** SOT only on the first descriptor, EOT only on the last one of a finished packet. */
  ghost predicate Flagged(descs: seq<Desc>, finished: bool) {
    descs == [] ||
    (var last := |descs| - 1;
     && (descs[last].sot <==> last == 0)
     && (descs[last].eot <==> finished)
     && Flagged(descs[..last], false))
  }

  lemma {:induction false} MatchesAt(descs: seq<Desc>, cuts: seq<seq<Buf>>, segs: seq<nat>, counts: seq<nat>, i: nat)
    requires Matches(descs, cuts, segs, counts) && i < |descs|
    ensures Carries(descs[i], cuts[i], segs[i], counts[i])
  {
    if i < |descs| - 1 {
      var last := |descs| - 1;
      MatchesAt(descs[..last], cuts[..last], segs[..last], counts[..last], i);
    }
  }

  lemma {:induction false} FlaggedAt(descs: seq<Desc>, finished: bool, i: nat)
    requires Flagged(descs, finished) && i < |descs|
    ensures descs[i].sot <==> i == 0
    ensures descs[i].eot <==> finished && i == |descs| - 1
    decreases |descs|
  {
    if i < |descs| - 1 {
      FlaggedAt(descs[..|descs| - 1], false, i);
    }
  }

  // ----- what reaches the device ------------------------------------------------

  /** The bytes of all pieces, in order. */
  ghost function CutBytes(cuts: seq<seq<Buf>>): seq<nat> {
    if cuts == [] then []
    else
      var last := |cuts| - 1;
      CutBytes(cuts[..last]) + Bytes(cuts[last])
  }

  /** No piece is too long for a descriptor field. */
  ghost predicate AllShort(cuts: seq<seq<Buf>>) {
    cuts == [] ||
    (var last := |cuts| - 1;
     Short(cuts[last]) && AllShort(cuts[..last]))
  }

  /** The device is handed exactly the bytes that were cut if and only if every piece fits its field. */
  lemma {:induction false} PayloadIff(descs: seq<Desc>, cuts: seq<seq<Buf>>, segs: seq<nat>, counts: seq<nat>)
    requires Matches(descs, cuts, segs, counts)
    ensures |Payload(descs)| <= |CutBytes(cuts)|
    ensures |Payload(descs)| == |CutBytes(cuts)| <==> AllShort(cuts)
    ensures Payload(descs) == CutBytes(cuts) <==> AllShort(cuts)
    decreases |descs|
  {
    if descs != [] {
      var last := |descs| - 1;
      PayloadIff(descs[..last], cuts[..last], segs[..last], counts[..last]);
      PayloadAdd(descs[..last], descs[last]);
      assert descs == descs[..last] + [descs[last]];
      StoredBytes(cuts[last]);
    }
  }

  // ----- the outer loop ------------------------------------------------------

  /** One turn of the outer loop: fill a descriptor and post it. */
  method Emit(bufs: seq<Buf>, cur: Cursor, seg: nat, start: bool, done: bool)
    returns (d: Desc, next: Cursor, ghost pieces: seq<Buf>)
    requires CursorOk(cur, bufs) && 0 < seg <= cur.rem + Sum(Lens(bufs[cur.next..]))
    ensures CursorOk(next, bufs)
    ensures Stream(cur, bufs) == Bytes(pieces) + Stream(next, bufs)
    ensures Carries(d, pieces, seg, Pieces(cur.rem, Lens(bufs[cur.next..]), seg))
    ensures Short(pieces) <==> PiecesShort(cur.rem, Lens(bufs[cur.next..]), seg)
    ensures d.sot == start && d.eot == done
    ensures (next.rem, Lens(bufs[next.next..])) == Left(cur.rem, Lens(bufs[cur.next..]), seg)
  {
    var filled: seq<Buf>;
    filled, next := FillDesc(bufs, cur, seg);
    d := MakeDesc(filled, start, done);
    pieces := filled;
  }

  /** One posted descriptor moves its bytes from the stream to those cut. */
  lemma PostedBytes(bufs: seq<Buf>, cuts: seq<seq<Buf>>, cur: Cursor, next: Cursor, pieces: seq<Buf>)
    requires CursorOk(cur, bufs) && CursorOk(next, bufs)
    requires Bytes(bufs) == CutBytes(cuts) + Stream(cur, bufs)
    requires Stream(cur, bufs) == Bytes(pieces) + Stream(next, bufs)
    ensures Bytes(bufs) == CutBytes(cuts + [pieces]) + Stream(next, bufs)
  {
    assert (cuts + [pieces])[..|cuts|] == cuts;
    Regroup(CutBytes(cuts), Bytes(pieces), Stream(next, bufs));
  }

  lemma MatchesAdd(descs: seq<Desc>, cuts: seq<seq<Buf>>, segs: seq<nat>, counts: seq<nat>,
                   d: Desc, pieces: seq<Buf>, seg: nat, count: nat)
    requires Matches(descs, cuts, segs, counts) && Carries(d, pieces, seg, count)
    ensures Matches(descs + [d], cuts + [pieces], segs + [seg], counts + [count])
  {
    assert (descs + [d])[..|descs|] == descs && (segs + [seg])[..|descs|] == segs;
    assert (counts + [count])[..|descs|] == counts && (cuts + [pieces])[..|descs|] == cuts;
  }

  lemma FlaggedAdd(descs: seq<Desc>, d: Desc, done: bool)
    requires Flagged(descs, false) && (d.sot <==> descs == []) && (d.eot <==> done)
    ensures Flagged(descs + [d], done)
  {
    assert (descs + [d])[..|descs|] == descs;
  }

  lemma AllShortAdd(cuts: seq<seq<Buf>>, pieces: seq<Buf>)
    ensures AllShort(cuts + [pieces]) <==> AllShort(cuts) && Short(pieces)
  {
    assert (cuts + [pieces])[..|cuts|] == cuts;
  }

  /** The part of the specification that is still ahead, appended to what is done, is the whole. */
  ghost predicate OnPlan(segs: seq<nat>, counts: seq<nat>, short: bool, rem: nat, lens: seq<nat>,
                         total: nat, seg: nat, mss: nat, allSegs: seq<nat>, allCounts: seq<nat>, whole: bool) {
    && mss > 0 && total == rem + Sum(lens) && seg <= total && (total > 0 ==> seg > 0)
    && allSegs == segs + SegLens(total, seg, mss)
    && allCounts == counts + PieceCounts(rem, lens, total, seg, mss)
    && (whole <==> short && PacketShort(rem, lens, total, seg, mss))
  }

  /** One segment further. */
  lemma PlanStep(segs: seq<nat>, counts: seq<nat>, short: bool, rem: nat, lens: seq<nat>, rem': nat, lens': seq<nat>,
                 total: nat, seg: nat, mss: nat, allSegs: seq<nat>, allCounts: seq<nat>, whole: bool)
    requires OnPlan(segs, counts, short, rem, lens, total, seg, mss, allSegs, allCounts, whole)
    requires total > 0 && (rem', lens') == Left(rem, lens, seg)
    ensures OnPlan(segs + [seg], counts + [Pieces(rem, lens, seg)], short && PiecesShort(rem, lens, seg), rem', lens',
                   total - seg, NextSeg(total - seg, mss), mss, allSegs, allCounts, whole)
  {
    var rest := total - seg;
    CountsStep(rem, lens, rem', lens', total, seg, mss);
    ListStep(allSegs, segs, seg, SegLens(rest, NextSeg(rest, mss), mss));
    ListStep(allCounts, counts, Pieces(rem, lens, seg), PieceCounts(rem', lens', rest, NextSeg(rest, mss), mss));
  }

  lemma PlanStart(lens: seq<nat>, total: nat, seg: nat, mss: nat)
    requires mss > 0 && total == Sum(lens) && seg <= total && (total > 0 ==> seg > 0)
    ensures OnPlan([], [], true, 0, lens, total, seg, mss, SegLens(total, seg, mss),
                   PieceCounts(0, lens, total, seg, mss), PacketShort(0, lens, total, seg, mss))
  {
  }

  lemma PlanEnd(segs: seq<nat>, counts: seq<nat>, short: bool, rem: nat, lens: seq<nat>, seg: nat, mss: nat,
                allSegs: seq<nat>, allCounts: seq<nat>, whole: bool)
    requires OnPlan(segs, counts, short, rem, lens, 0, seg, mss, allSegs, allCounts, whole)
    ensures segs == allSegs && counts == allCounts && short == whole && rem + Sum(lens) == 0
  {
  }

  /** Moving the head of a specification list to the finished part. */
  lemma ListStep(all: seq<nat>, front: seq<nat>, x: nat, rest: seq<nat>)
    requires all == front + ([x] + rest)
    ensures all == (front + [x]) + rest
  {
  }

  lemma CountsStep(rem: nat, lens: seq<nat>, rem': nat, lens': seq<nat>, total: nat, seg: nat, mss: nat)
    requires mss > 0 && total <= rem + Sum(lens) && 0 < seg <= total
    requires (rem', lens') == Left(rem, lens, seg)
    ensures PieceCounts(rem, lens, total, seg, mss)
         == [Pieces(rem, lens, seg)] + PieceCounts(rem', lens', total - seg, NextSeg(total - seg, mss), mss)
  {
  }

  /** Nothing left to send means nothing left in the stream. */
  lemma StreamLen(c: Cursor, bufs: seq<Buf>)
    requires CursorOk(c, bufs)
    ensures |Stream(c, bufs)| == c.rem + Sum(Lens(bufs[c.next..]))
  {
    BytesLen(bufs[c.next..]);
  }

  /** What holds between two turns: so much of the packet is cut, so much is still in the stream. */
  ghost predicate Halfway(bufs: seq<Buf>, descs: seq<Desc>, cuts: seq<seq<Buf>>, segs: seq<nat>, counts: seq<nat>,
                          cur: Cursor) {
    && CursorOk(cur, bufs) && Bytes(bufs) == CutBytes(cuts) + Stream(cur, bufs)
    && Matches(descs, cuts, segs, counts)
  }

  lemma HalfwayStep(bufs: seq<Buf>, descs: seq<Desc>, cuts: seq<seq<Buf>>, segs: seq<nat>, counts: seq<nat>,
                    cur: Cursor, next: Cursor, d: Desc, pieces: seq<Buf>, seg: nat, count: nat)
    requires Halfway(bufs, descs, cuts, segs, counts, cur) && CursorOk(next, bufs)
    requires Stream(cur, bufs) == Bytes(pieces) + Stream(next, bufs) && Carries(d, pieces, seg, count)
    ensures Halfway(bufs, descs + [d], cuts + [pieces], segs + [seg], counts + [count], next)
  {
    PostedBytes(bufs, cuts, cur, next, pieces);
    MatchesAdd(descs, cuts, segs, counts, d, pieces, seg, count);
  }

  lemma HalfwayStart(bufs: seq<Buf>)
    ensures Halfway(bufs, [], [], [], [], Cursor(0, 0, 0))
  {
    assert bufs[0..] == bufs;
  }

  /** At the end everything has been cut. */
  lemma HalfwayEnd(bufs: seq<Buf>, descs: seq<Desc>, cuts: seq<seq<Buf>>, segs: seq<nat>, counts: seq<nat>, cur: Cursor)
    requires Halfway(bufs, descs, cuts, segs, counts, cur) && cur.rem + Sum(Lens(bufs[cur.next..])) == 0
    ensures CutBytes(cuts) == Bytes(bufs)
    ensures Payload(descs) == Bytes(bufs) <==> AllShort(cuts)
  {
    StreamLen(cur, bufs);
    PayloadIff(descs, cuts, segs, counts);
  }

  /** One turn of the outer loop, with what is known about the whole packet so far. */
  method Turn(bufs: seq<Buf>, descs: seq<Desc>, cur: Cursor, tsoRem: nat, segRem: nat, mss: nat,
              ghost cuts: seq<seq<Buf>>, ghost segs: seq<nat>, ghost counts: seq<nat>,
              ghost allSegs: seq<nat>, ghost allCounts: seq<nat>, ghost whole: bool)
    returns (d: Desc, next: Cursor, ghost pieces: seq<Buf>, ghost count: nat)
    requires Halfway(bufs, descs, cuts, segs, counts, cur) && Flagged(descs, false) && tsoRem > 0
    requires OnPlan(segs, counts, AllShort(cuts), cur.rem, Lens(bufs[cur.next..]), tsoRem, segRem, mss,
                    allSegs, allCounts, whole)
    ensures Halfway(bufs, descs + [d], cuts + [pieces], segs + [segRem], counts + [count], next)
    ensures Flagged(descs + [d], tsoRem == segRem)
    ensures OnPlan(segs + [segRem], counts + [count], AllShort(cuts + [pieces]), next.rem, Lens(bufs[next.next..]),
                   tsoRem - segRem, NextSeg(tsoRem - segRem, mss), mss, allSegs, allCounts, whole)
  {
    d, next, pieces := Emit(bufs, cur, segRem, descs == [], tsoRem == segRem);
    ghost var lens := Lens(bufs[cur.next..]);
    count := Pieces(cur.rem, lens, segRem);
    HalfwayStep(bufs, descs, cuts, segs, counts, cur, next, d, pieces, segRem, count);
    FlaggedAdd(descs, d, tsoRem == segRem);
    AllShortAdd(cuts, pieces);
    PlanStep(segs, counts, AllShort(cuts), cur.rem, lens, next.rem, Lens(bufs[next.next..]),
             tsoRem, segRem, mss, allSegs, allCounts, whole);
  }

  /** The outer loop of ionic_tx_tso, from a first segment of `first` bytes on. */
  method CutAll(bufs: seq<Buf>, len: nat, first: nat, mss: nat)
    returns (descs: seq<Desc>, ghost cuts: seq<seq<Buf>>, cur: Cursor)
    requires Sum(Lens(bufs)) == len && mss > 0 && first <= len && (len > 0 ==> first > 0)
    ensures Halfway(bufs, descs, cuts, SegLens(len, first, mss), PieceCounts(0, Lens(bufs), len, first, mss), cur)
    ensures Flagged(descs, true) && cur.rem + Sum(Lens(bufs[cur.next..])) == 0
    ensures AllShort(cuts) <==> PacketShort(0, Lens(bufs), len, first, mss)
  {
    var tsoRem: nat, segRem: nat := len, first;
    cur := Cursor(0, 0, 0);
    assert bufs[0..] == bufs;
    ghost var allSegs := SegLens(len, first, mss);
    ghost var allCounts := PieceCounts(0, Lens(bufs), len, first, mss);
    ghost var whole := PacketShort(0, Lens(bufs), len, first, mss);
    ghost var segs: seq<nat>, counts: seq<nat> := [], [];
    descs, cuts := [], [];
    HalfwayStart(bufs);
    PlanStart(Lens(bufs), len, first, mss);
    while tsoRem > 0
      invariant Halfway(bufs, descs, cuts, segs, counts, cur)
      invariant OnPlan(segs, counts, AllShort(cuts), cur.rem, Lens(bufs[cur.next..]), tsoRem, segRem, mss,
                       allSegs, allCounts, whole)
      invariant Flagged(descs, tsoRem == 0)
      decreases tsoRem
    {
      var d, next;
      ghost var pieces, count;
      d, next, pieces, count :=
        Turn(bufs, descs, cur, tsoRem, segRem, mss, cuts, segs, counts, allSegs, allCounts, whole);
      segs, counts, cuts := segs + [segRem], counts + [count], cuts + [pieces];
      descs, cur, tsoRem := descs + [d], next, tsoRem - segRem;
      segRem := NextSeg(tsoRem, mss);
    }
    PlanEnd(segs, counts, AllShort(cuts), cur.rem, Lens(bufs[cur.next..]), segRem, mss, allSegs, allCounts, whole);
  }

  /**
    ionic_tx_tso: cut the mapped packet into descriptors.  The pieces they are
    cut from are exactly the packet's bytes in order, segment lengths and piece
    counts are those of the specification, and the device is handed exactly
    those bytes if and only if the packet's layout leaves no piece that outgrows
    a 16-bit length field, which WholeIff turns into a bound on the first segment.
   */
  method Segment(bufs: seq<Buf>, len: nat, hdrlen: nat, mss: nat)
    returns (descs: seq<Desc>, ghost cuts: seq<seq<Buf>>)
    requires Sum(Lens(bufs)) == len && mss > 0
    ensures CutBytes(cuts) == Bytes(bufs)
    ensures Matches(descs, cuts, SegLens(len, Min(len, hdrlen + mss), mss),
                    PieceCounts(0, Lens(bufs), len, Min(len, hdrlen + mss), mss))
    ensures Flagged(descs, true)
    ensures Payload(descs) == Bytes(bufs) <==> Whole(Lens(bufs), hdrlen, mss)
    ensures Min(len, hdrlen + mss) < U16 ==> Payload(descs) == Bytes(bufs)
  {
    var cur;
    var first := Min(len, hdrlen + mss);
    descs, cuts, cur := CutAll(bufs, len, first, mss);
    ghost var segs, counts := SegLens(len, first, mss), PieceCounts(0, Lens(bufs), len, first, mss);
    HalfwayEnd(bufs, descs, cuts, segs, counts, cur);
    WholeIff(len, hdrlen, mss);
  }
}

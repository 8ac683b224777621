/**
  What TCP segmentation of a fragmented packet has to produce, on lengths and
  on byte addresses, independently of the loops that produce it.
 */
module TsoSpec {
  import opened Common

  /** A mapped buffer, and a piece of one named by a descriptor. */
  datatype Buf = Buf(addr: nat, len: nat)

  function Lens(bufs: seq<Buf>): (lens: seq<nat>)
    ensures |lens| == |bufs|
  {
    if bufs == [] then [] else [bufs[0].len] + Lens(bufs[1..])
  }

  // ----- bytes -------------------------------------------------------------

  /** The DMA addresses of a run of bytes. */
  function Range(addr: nat, len: nat): (r: seq<nat>)
    ensures |r| == len
  {
    seq(len, i requires 0 <= i < len => addr + i)
  }

  function Bytes(bufs: seq<Buf>): seq<nat> {
    if bufs == [] then [] else Range(bufs[0].addr, bufs[0].len) + Bytes(bufs[1..])
  }

  lemma RangeSplit(addr: nat, a: nat, b: nat)
    ensures Range(addr, a + b) == Range(addr, a) + Range(addr + a, b)
  {
  }

  lemma {:induction false} BytesAdd(bufs: seq<Buf>, b: Buf)
    ensures Bytes(bufs + [b]) == Bytes(bufs) + Range(b.addr, b.len)
  {
    if bufs == [] {
      assert bufs + [b] == [b];
      assert [b][1..] == [];
    } else {
      assert (bufs + [b])[1..] == bufs[1..] + [b];
      BytesAdd(bufs[1..], b);
    }
  }

  // ----- cutting lengths ---------------------------------------------------

  /**
    How many pieces it takes to cut `seg` bytes off a list of buffers of which
    the first `rem` bytes of the current one are left: a buffer is left when it
    is exhausted, so an empty buffer still costs a piece.
   */
  function Pieces(rem: nat, lens: seq<nat>, seg: nat): nat
    requires seg <= rem + Sum(lens)
    decreases |lens| + seg
  {
    if seg == 0 then 0
    else if rem > 0 then
      var c := Min(rem, seg);
      1 + Pieces(rem - c, lens, seg - c)
    else
      var c := Min(lens[0], seg);
      1 + Pieces(lens[0] - c, lens[1..], seg - c)
  }

  /** What is left of the current buffer, and the buffers after it, once `seg` bytes are gone. */
  function Left(rem: nat, lens: seq<nat>, seg: nat): (r: (nat, seq<nat>))
    requires seg <= rem + Sum(lens)
    ensures r.0 + Sum(r.1) == rem + Sum(lens) - seg
    decreases |lens| + seg
  {
    if seg == 0 then (rem, lens)
    else if rem > 0 then
      var c := Min(rem, seg);
      Left(rem - c, lens, seg - c)
    else
      var c := Min(lens[0], seg);
      Left(lens[0] - c, lens[1..], seg - c)
  }

  /** Length of the next segment of a packet with `total` bytes to go. */
  function NextSeg(total: nat, mss: nat): nat {
    Min(total, mss)
  }

  /** Pieces needed by each descriptor of a packet: first `seg` bytes, then `mss` at a time. */
  function PieceCounts(rem: nat, lens: seq<nat>, total: nat, seg: nat, mss: nat): seq<nat>
    requires mss > 0 && total <= rem + Sum(lens)
    requires seg <= total && (total > 0 ==> seg > 0)
    decreases total
  {
    if total == 0 then []
    else
      var (rem', lens') := Left(rem, lens, seg);
      [Pieces(rem, lens, seg)] + PieceCounts(rem', lens', total - seg, NextSeg(total - seg, mss), mss)
  }

  /** Is every piece of a segment short enough for a 16-bit length field? */
  predicate PiecesShort(rem: nat, lens: seq<nat>, seg: nat)
    requires seg <= rem + Sum(lens)
    decreases |lens| + seg
  {
    if seg == 0 then true
    else if rem > 0 then
      var c := Min(rem, seg);
      c < U16 && PiecesShort(rem - c, lens, seg - c)
    else
      var c := Min(lens[0], seg);
      c < U16 && PiecesShort(lens[0] - c, lens[1..], seg - c)
  }

  /** And every piece of a packet, first `seg` bytes, then `mss` at a time? */
  predicate PacketShort(rem: nat, lens: seq<nat>, total: nat, seg: nat, mss: nat)
    requires mss > 0 && total <= rem + Sum(lens)
    requires seg <= total && (total > 0 ==> seg > 0)
    decreases total
  {
    if total == 0 then true
    else
      var (rem', lens') := Left(rem, lens, seg);
      PiecesShort(rem, lens, seg) && PacketShort(rem', lens', total - seg, NextSeg(total - seg, mss), mss)
  }

  /** A packet mapped to buffers of these lengths is cut into short pieces only. */
  predicate Whole(lens: seq<nat>, hdrlen: nat, mss: nat)
    requires mss > 0
  {
    PacketShort(0, lens, Sum(lens), Min(Sum(lens), hdrlen + mss), mss)
  }

  lemma {:induction false} ShortSegment(rem: nat, lens: seq<nat>, seg: nat)
    requires seg <= rem + Sum(lens) && seg < U16
    ensures PiecesShort(rem, lens, seg)
    decreases |lens| + seg
  {
    if seg > 0 {
      if rem > 0 {
        var c := Min(rem, seg);
        ShortSegment(rem - c, lens, seg - c);
      } else {
        var c := Min(lens[0], seg);
        ShortSegment(lens[0] - c, lens[1..], seg - c);
      }
    }
  }

  lemma {:induction false} ShortSegments(rem: nat, lens: seq<nat>, total: nat, seg: nat, mss: nat)
    requires mss > 0 && total <= rem + Sum(lens) && seg <= total && (total > 0 ==> seg > 0)
    requires seg < U16 && (mss < U16 || total < U16)
    ensures PacketShort(rem, lens, total, seg, mss)
    decreases total
  {
    if total > 0 {
      ShortSegment(rem, lens, seg);
      var (rem', lens') := Left(rem, lens, seg);
      ShortSegments(rem', lens', total - seg, NextSeg(total - seg, mss), mss);
    }
  }

  /** A linear packet whose first segment does not fit 16 bits has a piece that does not. */
  lemma LinearTooLong(len: nat, hdrlen: nat, mss: nat)
    requires mss > 0 && Min(len, hdrlen + mss) >= U16
    ensures Sum([len]) == len && !Whole([len], hdrlen, mss)
  {
    assert [len][1..] == [];
    var seg := Min(len, hdrlen + mss);
    assert !PiecesShort(0, [len], seg);
  }

  /**
    Every packet of this length, header and mss is cut into short pieces only,
    however it is laid out, if and only if its first segment fits 16 bits.
   */
  lemma WholeIff(len: nat, hdrlen: nat, mss: nat)
    requires mss > 0
    ensures (forall lens: seq<nat> :: Sum(lens) == len ==> Whole(lens, hdrlen, mss)) <==> Min(len, hdrlen + mss) < U16
  {
    if Min(len, hdrlen + mss) < U16 {
      forall lens: seq<nat> | Sum(lens) == len
        ensures Whole(lens, hdrlen, mss)
      {
        ShortSegments(0, lens, len, Min(len, hdrlen + mss), mss);
      }
    } else {
      LinearTooLong(len, hdrlen, mss);
    }
  }

  /** Lengths of the segments. */
  function SegLens(total: nat, seg: nat, mss: nat): seq<nat>
    requires mss > 0 && seg <= total && (total > 0 ==> seg > 0)
    decreases total
  {
    if total == 0 then [] else [seg] + SegLens(total - seg, NextSeg(total - seg, mss), mss)
  }

  lemma {:induction false} OneCountPerSegment(rem: nat, lens: seq<nat>, total: nat, seg: nat, mss: nat)
    requires mss > 0 && total <= rem + Sum(lens) && seg <= total && (total > 0 ==> seg > 0)
    ensures |PieceCounts(rem, lens, total, seg, mss)| == |SegLens(total, seg, mss)|
    decreases total
  {
    if total > 0 {
      var (rem', lens') := Left(rem, lens, seg);
      OneCountPerSegment(rem', lens', total - seg, NextSeg(total - seg, mss), mss);
    }
  }

  lemma DivRoundUpStep(a: nat, b: nat)
    requires b > 0
    ensures a > b ==> DivRoundUp(a, b) == 1 + DivRoundUp(a - b, b)
    ensures 0 < a <= b ==> DivRoundUp(a, b) == 1
    ensures DivRoundUp(0, b) == 0
  {
    if a > b {
      assert a + b - 1 == (a - b + b - 1) + b;
      DivAdd(a - b + b - 1, b);
    } else if a > 0 {
      assert b <= a + b - 1 < 2 * b;
      DivAdd(a - 1, b);
      assert (a - 1) / b == 0;
    }
  }

  lemma DivAdd(x: nat, b: nat)
    requires b > 0
    ensures (x + b) / b == x / b + 1
  {
    var q, r := x / b, x % b;
    var q', r' := (x + b) / b, (x + b) % b;
    assert q * b + r + b == q' * b + r';
    MulStep(q' - q - 1, b);
    assert (q' - q - 1) * b == q' * b - q * b - b;
  }

  lemma MulStep(d: int, b: int)
    requires b >= 0
    ensures d >= 1 ==> d * b >= b
    ensures d <= -1 ==> d * b <= -b
  {
  }

  lemma {:induction false} MssSegments(total: nat, mss: nat)
    requires mss > 0
    ensures |SegLens(total, NextSeg(total, mss), mss)| == DivRoundUp(total, mss)
    decreases total
  {
    DivRoundUpStep(total, mss);
    if total > 0 {
      MssSegments(total - NextSeg(total, mss), mss);
    }
  }

  /** A packet is cut into one segment per mss of payload: the first one also carries the headers. */
  lemma SegmentCount(len: nat, hdrlen: nat, mss: nat)
    requires mss > 0 && len > hdrlen
    ensures |SegLens(len, Min(len, hdrlen + mss), mss)| == DivRoundUp(len - hdrlen, mss)
  {
    var seg := Min(len, hdrlen + mss);
    DivRoundUpStep(len - hdrlen, mss);
    MssSegments(len - seg, mss);
  }

  /** The first segment carries min(len, hdrlen + mss) bytes and every later one mss, except possibly the last. */
  lemma {:induction false} SegmentShape(total: nat, seg: nat, mss: nat, i: nat)
    requires mss > 0 && seg <= total && (total > 0 ==> seg > 0)
    requires i < |SegLens(total, seg, mss)|
    ensures i == 0 ==> SegLens(total, seg, mss)[i] == seg
    ensures 0 < i < |SegLens(total, seg, mss)| - 1 ==> SegLens(total, seg, mss)[i] == mss
    ensures 0 < i ==> 0 < SegLens(total, seg, mss)[i] <= mss
    decreases total
  {
    if i > 0 {
      var rest := total - seg;
      SegmentShape(rest, NextSeg(rest, mss), mss, i - 1);
      var tail := SegLens(rest, NextSeg(rest, mss), mss);
      if i - 1 == 0 && |tail| > 1 {
        // more segments follow, so this one is not cut short
        assert rest - NextSeg(rest, mss) > 0;
      }
    }
  }

  // ----- the two ways of looking at the same packet --------------------------

  ghost predicate AllAtMost(counts: seq<nat>, bound: nat) {
    counts == [] || (counts[0] <= bound && AllAtMost(counts[1..], bound))
  }

  lemma {:induction false} AllAtMostIndex(counts: seq<nat>, bound: nat)
    ensures AllAtMost(counts, bound) <==> forall i :: 0 <= i < |counts| ==> counts[i] <= bound
  {
    if counts != [] {
      AllAtMostIndex(counts[1..], bound);
      if AllAtMost(counts, bound) {
        forall i | 0 <= i < |counts| ensures counts[i] <= bound {
          if i > 0 { assert counts[i] == counts[1..][i - 1]; }
        }
      }
    }
  }

  /** Starting inside a non-empty first buffer or just before it makes no difference. */
  lemma EnteringFirst(first: nat, lens: seq<nat>, total: nat, seg: nat, mss: nat)
    requires first > 0 && mss > 0
    requires total <= first + Sum(lens) && seg <= total && (total > 0 ==> seg > 0)
    ensures Sum([first] + lens) == first + Sum(lens)
    ensures PieceCounts(0, [first] + lens, total, seg, mss) == PieceCounts(first, lens, total, seg, mss)
  {
    assert ([first] + lens)[1..] == lens;
    if total > 0 {
      assert Left(0, [first] + lens, seg) == Left(first, lens, seg);
    }
  }

  /** A linear packet never needs more than one piece per descriptor. */
  lemma {:induction false} LinearOnePiece(rem: nat, total: nat, seg: nat, mss: nat)
    requires mss > 0 && total <= rem && seg <= total && (total > 0 ==> seg > 0)
    ensures AllAtMost(PieceCounts(rem, [], total, seg, mss), 1)
    decreases total
  {
    if total > 0 {
      assert Pieces(rem, [], seg) == 1 + Pieces(rem - seg, [], 0);
      assert Left(rem, [], seg) == Left(rem - seg, [], 0);
      LinearOnePiece(rem - seg, total - seg, NextSeg(total - seg, mss), mss);
    }
  }

  lemma {:induction false} SumConcat(a: seq<nat>, b: seq<nat>)
    ensures Sum(a + b) == Sum(a) + Sum(b)
  {
    if a == [] {
      assert a + b == b;
    } else {
      assert (a + b)[1..] == a[1..] + b;
      SumConcat(a[1..], b);
    }
  }

  /** Buffers beyond those a segment reaches do not change how it is cut. */
  lemma {:induction false} CutIgnoresRest(rem: nat, lens: seq<nat>, more: seq<nat>, seg: nat)
    requires seg <= rem + Sum(lens)
    ensures Sum(lens + more) == Sum(lens) + Sum(more)
    ensures Pieces(rem, lens + more, seg) == Pieces(rem, lens, seg)
    ensures Left(rem, lens + more, seg) == (Left(rem, lens, seg).0, Left(rem, lens, seg).1 + more)
    decreases |lens| + seg
  {
    SumConcat(lens, more);
    if seg > 0 {
      if rem > 0 {
        var c := Min(rem, seg);
        CutIgnoresRest(rem - c, lens, more, seg - c);
      } else {
        var c := Min(lens[0], seg);
        assert (lens + more)[0] == lens[0] && (lens + more)[1..] == lens[1..] + more;
        CutIgnoresRest(lens[0] - c, lens[1..], more, seg - c);
      }
    }
  }

  lemma {:induction false} CountsIgnoreRest(rem: nat, lens: seq<nat>, more: seq<nat>, total: nat, seg: nat, mss: nat)
    requires mss > 0 && total <= rem + Sum(lens) && seg <= total && (total > 0 ==> seg > 0)
    ensures Sum(lens + more) == Sum(lens) + Sum(more)
    ensures PieceCounts(rem, lens + more, total, seg, mss) == PieceCounts(rem, lens, total, seg, mss)
    decreases total
  {
    SumConcat(lens, more);
    if total > 0 {
      CutIgnoresRest(rem, lens, more, seg);
      var (rem', lens') := Left(rem, lens, seg);
      CountsIgnoreRest(rem', lens', more, total - seg, NextSeg(total - seg, mss), mss);
    }
  }
}

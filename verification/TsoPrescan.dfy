/**
  ionic_tx_descs_needed: the scan that decides, before anything is mapped,
  whether every descriptor ionic_tx_tso is going to emit fits its SG list, and
  what the scan therefore guarantees about the packet that is sent.
 */
module TsoPrescan {
  import opened Common
  import opened TsoSpec
  import opened Tso
  import opened RingIndex

  datatype Scan = Fits | TooMany | RanOut   // RanOut: the scan reads past the last fragment

  /** Bytes the scan looks for beyond the fragments it was given. */
  function Missing(len: nat, hdrlen: nat, frags: seq<nat>): nat {
    if len <= hdrlen + Sum(frags) then 0 else len - hdrlen - Sum(frags)
  }

  /** Do all descriptors fit, if one more fragment held the missing bytes? */
  ghost predicate FitsPadded(len: nat, hdrlen: nat, mss: nat, frags: seq<nat>, maxSg: nat)
    requires mss > 0
  {
    var padded := frags + [Missing(len, hdrlen, frags)];
    SumConcat(frags, [Missing(len, hdrlen, frags)]);
    SumOne(Missing(len, hdrlen, frags));
    AllAtMost(PieceCounts(hdrlen, padded, len, Min(len, hdrlen + mss), mss), maxSg + 1)
  }

  /** The verdict of the whole scan, without its loops. */
  ghost function Verdict(len: nat, hdrlen: nat, mss: nat, frags: seq<nat>, maxSg: nat): Scan
    requires mss > 0
  {
    if !FitsPadded(len, hdrlen, mss, frags, maxSg) then TooMany
    else if Missing(len, hdrlen, frags) > 0 then RanOut
    else Fits
  }

  lemma SumOne(x: nat)
    ensures Sum([x]) == x
  {
    assert [x][1..] == [];
  }

  /** With nothing missing, padding changes nothing. */
  lemma NothingMissing(len: nat, hdrlen: nat, mss: nat, frags: seq<nat>, maxSg: nat)
    requires mss > 0 && len <= hdrlen + Sum(frags)
    ensures Verdict(len, hdrlen, mss, frags, maxSg) == Fits
       <==> AllAtMost(PieceCounts(hdrlen, frags, len, Min(len, hdrlen + mss), mss), maxSg + 1)
    ensures Verdict(len, hdrlen, mss, frags, maxSg) != RanOut
  {
    CountsIgnoreRest(hdrlen, frags, [0], len, Min(len, hdrlen + mss), mss);
  }

  /**
    The inner loop of the scan: count the buffers one descriptor takes.  `pad`
    is any fragment that would hold the bytes the others lack.
   */
  method ScanSeg(rem0: nat, frags: seq<nat>, i0: nat, seg: nat, maxSg: nat, ghost pad: nat)
    returns (r: Scan, rem: nat, i: nat)
    requires i0 <= |frags| && seg <= rem0 + Sum(frags[i0..] + [pad])
    ensures i <= |frags|
    ensures r == TooMany <==> Pieces(rem0, frags[i0..] + [pad], seg) > maxSg + 1
    ensures r == RanOut ==> seg > rem0 + Sum(frags[i0..])
    ensures r == Fits ==> (rem, frags[i..] + [pad]) == Left(rem0, frags[i0..] + [pad], seg)
    ensures r == Fits ==> seg <= rem0 + Sum(frags[i0..])
  {
    rem, i := rem0, i0;
    var left: nat := seg;
    var descBufs := 0;
    ghost var lens := frags[i0..] + [pad];
    ghost var pieces, end := Pieces(rem0, lens, seg), Left(rem0, lens, seg);
    SumConcat(frags[i0..], [pad]);
    SumOne(pad);
    while left > 0
      invariant i <= |frags| && lens == frags[i..] + [pad] && descBufs <= maxSg + 1
      invariant left <= rem + Sum(lens) && rem0 + Sum(frags[i0..]) - seg == rem + Sum(lens) - pad - left
      invariant descBufs + Pieces(rem, lens, left) == pieces
      invariant Left(rem, lens, left) == end
      decreases |frags| - i + left, left
    {
      descBufs := descBufs + 1;
      if descBufs > maxSg + 1 {
        return TooMany, rem, i;
      }
      if rem == 0 {
        if i == |frags| {
          LastPiece(lens, pad, left);
          return RanOut, rem, i;
        }
        assert lens[0] == frags[i] && lens[1..] == frags[i + 1..] + [pad];
        rem := frags[i];
        i := i + 1;
        lens := lens[1..];
      }
      var chunk := Min(rem, left);
      rem := rem - chunk;
      left := left - chunk;
    }
    SumConcat(frags[i..], [pad]);
    r := Fits;
  }

  lemma LastPiece(lens: seq<nat>, pad: nat, left: nat)
    requires lens == [pad] && 0 < left <= Sum(lens)
    ensures Sum(lens) == pad && Pieces(0, lens, left) == 1
  {
    assert lens[1..] == [];
    SumOne(pad);
    assert Pieces(0, lens, left) == 1 + Pieces(pad - left, [], 0);
  }

  /** Once only the padding is left, every further descriptor takes one piece. */
  lemma PaddingFits(rem: nat, lens: seq<nat>, pad: nat, total: nat, seg: nat, mss: nat, bound: nat)
    requires mss > 0 && bound >= 1 && total <= rem + Sum(lens + [pad]) && 0 < seg <= total
    requires seg > rem + Sum(lens) && Pieces(rem, lens + [pad], seg) <= bound
    ensures AllAtMost(PieceCounts(rem, lens + [pad], total, seg, mss), bound)
  {
    var (rem', lens') := Left(rem, lens + [pad], seg);
    PastAll(rem, lens, pad, seg);
    LinearOnePiece(rem', total - seg, NextSeg(total - seg, mss), mss);
    LooserBound(PieceCounts(rem', lens', total - seg, NextSeg(total - seg, mss), mss), 1, bound);
    CountsStep(rem, lens + [pad], rem', lens', total, seg, mss);
  }

  /** A segment that reaches into the padding leaves nothing but padding. */
  lemma {:induction false} PastAll(rem: nat, lens: seq<nat>, pad: nat, seg: nat)
    requires rem + Sum(lens) < seg <= rem + Sum(lens + [pad])
    ensures Left(rem, lens + [pad], seg).1 == []
    decreases |lens| + seg
  {
    SumConcat(lens, [pad]);
    SumOne(pad);
    if rem > 0 {
      PastAll(0, lens, pad, seg - rem);
    } else if lens == [] {
      assert [] + [pad] == [pad] && [pad][1..] == [];
    } else {
      var c := Min(lens[0], seg);
      assert (lens + [pad])[0] == lens[0] && (lens + [pad])[1..] == lens[1..] + [pad];
      PastAll(lens[0] - c, lens[1..], pad, seg - c);
    }
  }

  /** All counts fit if the first does and the others do. */
  lemma FitsStep(rem: nat, lens: seq<nat>, rem': nat, lens': seq<nat>, total: nat, seg: nat, mss: nat, bound: nat)
    requires mss > 0 && total <= rem + Sum(lens) && 0 < seg <= total
    requires (rem', lens') == Left(rem, lens, seg)
    ensures AllAtMost(PieceCounts(rem, lens, total, seg, mss), bound) <==>
            && Pieces(rem, lens, seg) <= bound
            && AllAtMost(PieceCounts(rem', lens', total - seg, NextSeg(total - seg, mss), mss), bound)
  {
    CountsStep(rem, lens, rem', lens', total, seg, mss);
    var rest := PieceCounts(rem', lens', total - seg, NextSeg(total - seg, mss), mss);
    assert ([Pieces(rem, lens, seg)] + rest)[1..] == rest;
  }

  /** The whole scan, starting with just the header in the first descriptor. */
  method PreScan(len: nat, hdrlen: nat, mss: nat, frags: seq<nat>, maxSg: nat) returns (r: Scan)
    requires mss > 0
    ensures r == Verdict(len, hdrlen, mss, frags, maxSg)
  {
    var total: nat, seg: nat := len, Min(len, hdrlen + mss);
    var rem: nat, i: nat := hdrlen, 0;
    ghost var pad := Missing(len, hdrlen, frags);
    ghost var lens := frags + [pad];
    ghost var fits := FitsPadded(len, hdrlen, mss, frags, maxSg);
    SumConcat(frags, [pad]);
    SumOne(pad);
    while total > 0
      invariant i <= |frags| && lens == frags[i..] + [pad] && seg <= total && (total > 0 ==> seg > 0)
      invariant total <= rem + Sum(lens) && hdrlen + Sum(frags) - len == rem + Sum(lens) - pad - total
      invariant fits <==> AllAtMost(PieceCounts(rem, lens, total, seg, mss), maxSg + 1)
      decreases total
    {
      ghost var left := Left(rem, lens, seg);
      FitsStep(rem, lens, left.0, left.1, total, seg, mss, maxSg + 1);
      SumConcat(frags[i..], [pad]);
      var outcome, rem', i' := ScanSeg(rem, frags, i, seg, maxSg, pad);
      if outcome != Fits {
        if outcome == RanOut {
          PaddingFits(rem, frags[i..], pad, total, seg, mss, maxSg + 1);
        }
        return outcome;
      }
      total := total - seg;
      seg := NextSeg(total, mss);
      rem, i, lens := rem', i', left.1;
    }
    SumConcat(frags[i..], [pad]);
    r := Fits;
  }

  // ----- ionic_tx_descs_needed ---------------------------------------------

  /** A GSO packet: lengths of its linear part and its fragments, header length, mss, and the stack's segment count. */
  datatype Skb = Skb(headlen: nat, frags: seq<nat>, hdrlen: nat, mss: nat, gsoSegs: nat)

  function SkbLen(skb: Skb): nat {
    skb.headlen + Sum(skb.frags)
  }

  function FirstSeg(skb: Skb): nat {
    Min(SkbLen(skb), skb.hdrlen + skb.mss)
  }

  /** The restrictions under which the scan looks at the packet ionic_tx_tso will cut. */
  ghost predicate WellFormed(skb: Skb) {
    && skb.mss > 0 && skb.hdrlen > 0
    && skb.headlen == skb.hdrlen
    && SkbLen(skb) > skb.hdrlen
    && skb.gsoSegs == DivRoundUp(SkbLen(skb) - skb.hdrlen, skb.mss)
  }

  datatype Needed = Needs(ndescs: nat, linear: bool) | NoMemory | BadScan

  /** The buffers a packet has when it is mapped. */
  function MappedLens(skb: Skb, linear: bool): seq<nat> {
    if linear || skb.frags == [] then [SkbLen(skb)] else [skb.headlen] + skb.frags
  }

  /** Does every descriptor of the packet fit its SG list, cut from these buffers? */
  ghost predicate SentFits(skb: Skb, lens: seq<nat>, maxSg: nat)
    requires skb.mss > 0 && Sum(lens) == SkbLen(skb)
  {
    AllAtMost(PieceCounts(0, lens, SkbLen(skb), FirstSeg(skb), skb.mss), maxSg + 1)
  }

  /**
    What the scan makes of the packet.  A packet without fragments is not
    scanned; `beyond` are the lengths the scan finds in memory after the last
    fragment, should it read on.
   */
  ghost function Scanned(skb: Skb, beyond: seq<nat>, maxSg: nat): Scan
    requires skb.mss > 0
  {
    if skb.frags == [] then Fits else Verdict(SkbLen(skb), skb.hdrlen, skb.mss, skb.frags + beyond, maxSg)
  }

  /** The GSO half of ionic_tx_descs_needed; `linearizeOk` is skb_linearize succeeding. */
  method DescsNeeded(skb: Skb, beyond: seq<nat>, maxSg: nat, linearizeOk: bool) returns (r: Needed)
    requires skb.mss > 0
    ensures r == match Scanned(skb, beyond, maxSg)
                 case Fits => Needs(skb.gsoSegs, false)
                 case TooMany => if linearizeOk then Needs(skb.gsoSegs, true) else NoMemory
                 case RanOut => BadScan
    ensures r == BadScan ==> skb.headlen > skb.hdrlen
  {
    if skb.frags == [] {
      return Needs(skb.gsoSegs, false);
    }
    SumConcat(skb.frags, beyond);
    var scan := PreScan(SkbLen(skb), skb.hdrlen, skb.mss, skb.frags + beyond, maxSg);
    match scan {
      case Fits => r := Needs(skb.gsoSegs, false);
      case TooMany => r := if linearizeOk then Needs(skb.gsoSegs, true) else NoMemory;
      case RanOut => r := BadScan;
    }
  }

  // ----- what an accepted packet is sent as ----------------------------------

  lemma {:induction false} LooserBound(counts: seq<nat>, a: nat, b: nat)
    requires AllAtMost(counts, a) && a <= b
    ensures AllAtMost(counts, b)
  {
    if counts != [] {
      LooserBound(counts[1..], a, b);
    }
  }

  /** Linearised, or without fragments, a packet takes one piece per descriptor. */
  lemma LinearFits(skb: Skb, maxSg: nat)
    requires skb.mss > 0 && SkbLen(skb) > 0
    ensures Sum([SkbLen(skb)]) == SkbLen(skb) && SentFits(skb, [SkbLen(skb)], maxSg)
  {
    var len := SkbLen(skb);
    SumOne(len);
    EnteringFirst(len, [], len, FirstSeg(skb), skb.mss);
    assert [len] + [] == [len];
    LinearOnePiece(len, len, FirstSeg(skb), skb.mss);
    LooserBound(PieceCounts(len, [], len, FirstSeg(skb), skb.mss), 1, maxSg + 1);
  }

  /**
    The scan agrees with the segmentation when the linear part is the header:
    it accepts a packet if and only if every descriptor ionic_tx_tso will emit
    fits its SG list, whatever lies beyond the fragments, and never reads there.
   */
  lemma ScanAgrees(skb: Skb, beyond: seq<nat>, maxSg: nat)
    requires skb.mss > 0 && skb.hdrlen > 0 && skb.headlen == skb.hdrlen
    ensures Sum(MappedLens(skb, false)) == SkbLen(skb)
    ensures Scanned(skb, beyond, maxSg) == Fits <==> SentFits(skb, MappedLens(skb, false), maxSg)
    ensures Scanned(skb, beyond, maxSg) != RanOut
  {
    if skb.frags == [] {
      LinearFits(skb, maxSg);
    } else {
      var len, first := SkbLen(skb), FirstSeg(skb);
      SumConcat(skb.frags, beyond);
      NothingMissing(len, skb.hdrlen, skb.mss, skb.frags + beyond, maxSg);
      CountsIgnoreRest(skb.hdrlen, skb.frags, beyond, len, first, skb.mss);
      EnteringFirst(skb.headlen, skb.frags, len, first, skb.mss);
    }
  }

  /** So whatever is sent fits, be it accepted as it is or linearised because it did not fit. */
  lemma AcceptedFitsSg(skb: Skb, beyond: seq<nat>, maxSg: nat, linear: bool)
    requires WellFormed(skb)
    requires !linear ==> Scanned(skb, beyond, maxSg) == Fits
    ensures Sum(MappedLens(skb, linear)) == SkbLen(skb)
    ensures SentFits(skb, MappedLens(skb, linear), maxSg)
  {
    if linear {
      LinearFits(skb, maxSg);
    } else {
      ScanAgrees(skb, beyond, maxSg);
    }
  }

  /**
    ionic_start_xmit for a GSO packet: scan, linearise if told to, cut.  `bufs`
    are the buffers it is mapped to; an accepted packet leaves as exactly as
    many descriptors as space was reserved for, each within its SG list.
   */
  method XmitGso(skb: Skb, beyond: seq<nat>, maxSg: nat, linearizeOk: bool, bufs: seq<Buf>, linearBuf: Buf)
    returns (r: Needed, descs: seq<Desc>)
    requires WellFormed(skb) && maxSg <= 15
    requires Lens(bufs) == MappedLens(skb, false) && linearBuf.len == SkbLen(skb)
    ensures r != BadScan && (r == NoMemory ==> !linearizeOk)
    ensures r.Needs? ==> |descs| == r.ndescs
    ensures r.Needs? ==> forall i :: 0 <= i < |descs| ==> |descs[i].sgs| <= maxSg && descs[i].nsge == |descs[i].sgs|
    ensures r.Needs? ==>
              (Payload(descs) == Bytes(if r.linear then [linearBuf] else bufs)
               <==> Whole(MappedLens(skb, r.linear), skb.hdrlen, skb.mss))
    ensures r.Needs? && FirstSeg(skb) < U16 ==> Payload(descs) == Bytes(if r.linear then [linearBuf] else bufs)
  {
    descs := [];
    r := DescsNeeded(skb, beyond, maxSg, linearizeOk);
    ScanAgrees(skb, beyond, maxSg);
    if r.Needs? {
      AcceptedFitsSg(skb, beyond, maxSg, r.linear);
      if r.linear {
        assert [linearBuf][1..] == [];
        descs := SendMapped(skb, maxSg, [linearBuf]);
      } else {
        descs := SendMapped(skb, maxSg, bufs);
      }
    }
  }

  /** Cutting buffers that are known to fit. */
  method SendMapped(skb: Skb, maxSg: nat, mapped: seq<Buf>) returns (descs: seq<Desc>)
    requires WellFormed(skb) && maxSg <= 15 && Sum(Lens(mapped)) == SkbLen(skb) && SentFits(skb, Lens(mapped), maxSg)
    ensures |descs| == skb.gsoSegs
    ensures Payload(descs) == Bytes(mapped) <==> Whole(Lens(mapped), skb.hdrlen, skb.mss)
    ensures FirstSeg(skb) < U16 ==> Payload(descs) == Bytes(mapped)
    ensures forall i :: 0 <= i < |descs| ==> |descs[i].sgs| <= maxSg && descs[i].nsge == |descs[i].sgs|
  {
    ghost var cuts;
    descs, cuts := Segment(mapped, SkbLen(skb), skb.hdrlen, skb.mss);
    SegmentCount(SkbLen(skb), skb.hdrlen, skb.mss);
    ghost var counts := PieceCounts(0, Lens(mapped), SkbLen(skb), FirstSeg(skb), skb.mss);
    FitsEach(descs, cuts, SegLens(SkbLen(skb), FirstSeg(skb), skb.mss), counts, maxSg);
  }

  lemma FitsEach(descs: seq<Desc>, cuts: seq<seq<Buf>>, segs: seq<nat>, counts: seq<nat>, maxSg: nat)
    requires Matches(descs, cuts, segs, counts) && AllAtMost(counts, maxSg + 1) && maxSg <= 15
    ensures forall i :: 0 <= i < |descs| ==> |descs[i].sgs| <= maxSg && descs[i].nsge == |descs[i].sgs|
  {
    AllAtMostIndex(counts, maxSg + 1);
    forall i | 0 <= i < |descs| ensures |descs[i].sgs| <= maxSg && descs[i].nsge == |descs[i].sgs| {
      MatchesAt(descs, cuts, segs, counts, i);
    }
  }

  /** A space check for gso_segs descriptors therefore keeps the head from catching the tail. */
  lemma AcceptedKeepsGap(skb: Skb, posted: nat, cleaned: nat, n: nat)
    requires WellFormed(skb) && n > 0 && cleaned <= posted < cleaned + n
    requires HasSpace(Slot(posted, n), Slot(cleaned, n), n, skb.gsoSegs)
    ensures posted + |SegLens(SkbLen(skb), FirstSeg(skb), skb.mss)| < cleaned + n
  {
    SegmentCount(SkbLen(skb), skb.hdrlen, skb.mss);
    GrantedSpaceKeepsGap(posted, cleaned, n, skb.gsoSegs);
  }

  // ----- exactly when the scan can be trusted -----------------------------------

  /**
    The scan of every packet with these lengths of linear part and header is
    right: it accepts exactly what fits, whatever lies beyond the fragments.
   */
  ghost predicate ScanRight(headlen: nat, hdrlen: nat) {
    forall frags: seq<nat>, beyond: seq<nat>, mss: nat, maxSg: nat :: mss > 0 ==>
      ScanRightFor(Skb(headlen, frags, hdrlen, mss, 0), beyond, maxSg)
  }

  ghost predicate ScanRightFor(skb: Skb, beyond: seq<nat>, maxSg: nat)
    requires skb.mss > 0
  {
    SumMapped(skb);
    Scanned(skb, beyond, maxSg) == Fits <==> SentFits(skb, MappedLens(skb, false), maxSg)
  }

  lemma SumMapped(skb: Skb)
    ensures Sum(MappedLens(skb, false)) == SkbLen(skb)
  {
    SumOne(SkbLen(skb));
    assert ([skb.headlen] + skb.frags)[1..] == skb.frags;
  }

  /** The pre-scan can be trusted if and only if the linear part is exactly the header. */
  lemma ScanRightIff(headlen: nat, hdrlen: nat)
    requires hdrlen > 0
    ensures ScanRight(headlen, hdrlen) <==> headlen == hdrlen
  {
    if headlen == hdrlen {
      forall frags: seq<nat>, beyond: seq<nat>, mss: nat, maxSg: nat | mss > 0
        ensures ScanRightFor(Skb(headlen, frags, hdrlen, mss, 0), beyond, maxSg)
      {
        ScanAgrees(Skb(headlen, frags, hdrlen, mss, 0), beyond, maxSg);
      }
    } else if headlen < hdrlen {
      ShortHeadAcceptedWrongly(headlen, hdrlen);
      assert !ScanRightFor(Skb(headlen, [1, hdrlen], hdrlen, 1, 0), [], 1);
    } else {
      LongHeadDependsOnMemory(headlen, hdrlen);
      assert !ScanRightFor(Skb(headlen, [1], hdrlen, headlen + 1, 0), [0, headlen], 2);
    }
  }

  /** With less than the header in it, some packet is accepted whose first descriptor does not fit. */
  lemma ShortHeadAcceptedWrongly(headlen: nat, hdrlen: nat)
    requires headlen < hdrlen
    ensures var skb := Skb(headlen, [1, hdrlen], hdrlen, 1, 0);
            && Scanned(skb, [], 1) == Fits
            && Sum(MappedLens(skb, false)) == SkbLen(skb) && !SentFits(skb, MappedLens(skb, false), 1)
  {
    var skb := Skb(headlen, [1, hdrlen], hdrlen, 1, 0);
    SumMapped(skb);
    assert [1, hdrlen][1..] == [hdrlen] && [hdrlen][1..] == [] && [1, hdrlen] + [] == [1, hdrlen];
    SumOne(hdrlen);
    NothingMissing(SkbLen(skb), hdrlen, 1, [1, hdrlen], 1);
    ShortHeadScan(headlen, hdrlen);
    ShortHeadSent(headlen, hdrlen);
  }

  /** Header and one byte for the first descriptor, then the rest of the last fragment. */
  lemma ShortHeadScan(headlen: nat, hdrlen: nat)
    requires headlen < hdrlen && Sum([1, hdrlen]) == 1 + hdrlen
    ensures AllAtMost(PieceCounts(hdrlen, [1, hdrlen], headlen + 1 + hdrlen, hdrlen + 1, 1), 2)
  {
    var lens := [1, hdrlen];
    assert lens[1..] == [hdrlen] && [hdrlen][1..] == [];
    SumOne(hdrlen);
    assert Pieces(hdrlen, lens, hdrlen + 1) == 1 + Pieces(0, lens, 1);
    assert Pieces(0, lens, 1) == 1 + Pieces(0, [hdrlen], 0);
    assert Left(hdrlen, lens, hdrlen + 1) == Left(0, lens, 1);
    assert Left(0, lens, 1) == Left(0, [hdrlen], 0);
    var seg := NextSeg(headlen, 1);
    assert [hdrlen] + [] == [hdrlen];
    EnteringFirst(hdrlen, [], headlen, seg, 1);
    LinearOnePiece(hdrlen, headlen, seg, 1);
    LooserBound(PieceCounts(hdrlen, [], headlen, seg, 1), 1, 2);
    CountsStep(hdrlen, lens, 0, [hdrlen], headlen + 1 + hdrlen, hdrlen + 1, 1);
  }

  /** As mapped, the first descriptor takes the linear part, the byte, and the rest from the last fragment. */
  lemma ShortHeadSent(headlen: nat, hdrlen: nat)
    requires headlen < hdrlen && Sum([headlen] + [1, hdrlen]) == headlen + 1 + hdrlen
    ensures !AllAtMost(PieceCounts(0, [headlen] + [1, hdrlen], headlen + 1 + hdrlen, hdrlen + 1, 1), 2)
  {
    var lens := [headlen] + [1, hdrlen];
    ShortHeadPieces(headlen, hdrlen, lens);
    var (rem', lens') := Left(0, lens, hdrlen + 1);
    CountsStep(0, lens, rem', lens', headlen + 1 + hdrlen, hdrlen + 1, 1);
  }

  lemma ShortHeadPieces(headlen: nat, hdrlen: nat, lens: seq<nat>)
    requires headlen < hdrlen && lens == [headlen] + [1, hdrlen] && Sum(lens) == headlen + 1 + hdrlen
    ensures Pieces(0, lens, hdrlen + 1) == 3
  {
    assert lens[1..] == [1, hdrlen] && [1, hdrlen][1..] == [hdrlen] && [hdrlen][1..] == [];
    SumOne(hdrlen);
    var k := hdrlen - headlen;
    assert Pieces(0, lens, hdrlen + 1) == 1 + Pieces(0, [1, hdrlen], k + 1);
    assert Pieces(0, [1, hdrlen], k + 1) == 1 + Pieces(0, [hdrlen], k);
    assert Pieces(0, [hdrlen], k) == 1 + Pieces(headlen, [], 0);
  }

  /**
    With more than the header in it, the scan reads past the last fragment: for
    one and the same packet, which does fit, what it finds there decides
    between accepting and rejecting it.
   */
  lemma LongHeadDependsOnMemory(headlen: nat, hdrlen: nat)
    requires 0 < hdrlen < headlen
    ensures var skb := Skb(headlen, [1], hdrlen, headlen + 1, 0);
            && Sum(MappedLens(skb, false)) == SkbLen(skb) && SentFits(skb, MappedLens(skb, false), 2)
            && Scanned(skb, [], 2) == RanOut
            && Scanned(skb, [headlen], 2) == Fits
            && Scanned(skb, [0, headlen], 2) == TooMany
  {
    var skb := Skb(headlen, [1], hdrlen, headlen + 1, 0);
    SumMapped(skb);
    SumOne(1);
    assert SkbLen(skb) == FirstSeg(skb) == headlen + 1;
    assert [headlen] + [1] == [headlen, 1];
    TwoPieces(headlen);
    OneSegment(0, [headlen, 1], headlen + 1, headlen + 1, 3);
    LongHeadRunsOut(headlen, hdrlen);
    LongHeadJunk(headlen, hdrlen);
  }

  /** With nothing beyond, three pieces, had the missing bytes been there. */
  lemma LongHeadRunsOut(headlen: nat, hdrlen: nat)
    requires 0 < hdrlen < headlen
    ensures Verdict(headlen + 1, hdrlen, headlen + 1, [1] + [], 2) == RanOut
  {
    var k := headlen - hdrlen;
    SumOne(1);
    assert [1] + [] == [1] && [1] + [k] == [1, k];
    ThreePieces(hdrlen, k, k);
    OneSegment(hdrlen, [1, k], headlen + 1, headlen + 1, 3);
  }

  /** With one long fragment beyond three pieces, with an empty one before it four. */
  lemma LongHeadJunk(headlen: nat, hdrlen: nat)
    requires 0 < hdrlen < headlen
    ensures Verdict(headlen + 1, hdrlen, headlen + 1, [1] + [headlen], 2) == Fits
    ensures Verdict(headlen + 1, hdrlen, headlen + 1, [1] + [0, headlen], 2) == TooMany
  {
    var k, len := headlen - hdrlen, headlen + 1;
    assert [1] + [headlen] == [1, headlen] && [1] + [0, headlen] == [1, 0, headlen];
    ThreePieces(hdrlen, headlen, k);
    OneSegment(hdrlen, [1, headlen], len, len, 3);
    NothingMissing(len, hdrlen, len, [1, headlen], 2);
    FourPieces(hdrlen, headlen, k);
    OneSegment(hdrlen, [1, 0, headlen], len, len, 3);
    NothingMissing(len, hdrlen, len, [1, 0, headlen], 2);
  }

  /** A packet of a single segment has a single count. */
  lemma OneSegment(rem: nat, lens: seq<nat>, total: nat, mss: nat, bound: nat)
    requires mss > 0 && 0 < total <= rem + Sum(lens)
    ensures AllAtMost(PieceCounts(rem, lens, total, total, mss), bound) <==> Pieces(rem, lens, total) <= bound
  {
    var (rem', lens') := Left(rem, lens, total);
    CountsStep(rem, lens, rem', lens', total, total, mss);
    assert PieceCounts(rem', lens', 0, 0, mss) == [];
    assert AllAtMost([], bound);
    assert ([Pieces(rem, lens, total)] + [])[1..] == [];
  }

  lemma TwoPieces(head: nat)
    ensures Sum([head, 1]) == head + 1 && Pieces(0, [head, 1], head + 1) == 2
  {
    assert [head, 1][1..] == [1] && [1][1..] == [];
    SumOne(1);
    assert Pieces(0, [head, 1], head + 1) == 1 + Pieces(0, [1], 1);
    assert Pieces(0, [1], 1) == 1 + Pieces(0, [], 0);
  }

  lemma ThreePieces(hdr: nat, last: nat, k: nat)
    requires hdr > 0 && 0 < k <= last
    ensures Sum([1, last]) == 1 + last && Pieces(hdr, [1, last], hdr + 1 + k) == 3
  {
    assert [1, last][1..] == [last] && [last][1..] == [];
    SumOne(last);
    assert Pieces(hdr, [1, last], hdr + 1 + k) == 1 + Pieces(0, [1, last], 1 + k);
    assert Pieces(0, [1, last], 1 + k) == 1 + Pieces(0, [last], k);
    assert Pieces(0, [last], k) == 1 + Pieces(last - k, [], 0);
  }

  lemma FourPieces(hdr: nat, last: nat, k: nat)
    requires hdr > 0 && 0 < k <= last
    ensures Sum([1, 0, last]) == 1 + last && Pieces(hdr, [1, 0, last], hdr + 1 + k) == 4
  {
    assert [1, 0, last][1..] == [0, last] && [0, last][1..] == [last] && [last][1..] == [];
    SumOne(last);
    assert Sum([0, last]) == last;
    assert Pieces(hdr, [1, 0, last], hdr + 1 + k) == 1 + Pieces(0, [1, 0, last], 1 + k);
    assert Pieces(0, [1, 0, last], 1 + k) == 1 + Pieces(0, [0, last], k);
    assert Pieces(0, [0, last], k) == 1 + Pieces(0, [last], k);
    assert Pieces(0, [last], k) == 1 + Pieces(last - k, [], 0);
  }
}

/** The 64-bit command word of a transmit descriptor: encode_txq_desc_cmd and decode_txq_desc_cmd. */
module TxCommand {

  const ADDR_MASK: bv64 := 0xf_ffff_ffff_ffff

  function Encode(opcode: bv8, flags: bv8, nsge: bv8, addr: bv64): bv64 {
    ((opcode & 0xf) as bv64 << 4)
    | ((flags & 0xf) as bv64)
    | ((nsge & 0xf) as bv64 << 8)
    | ((addr & ADDR_MASK) << 12)
  }

  function DecodeOpcode(cmd: bv64): bv64 {
    (cmd >> 4) & 0xf
  }

  function DecodeFlags(cmd: bv64): bv64 {
    cmd & 0xf
  }

  function DecodeNsge(cmd: bv64): bv64 {
    (cmd >> 8) & 0xf
  }

  function DecodeAddr(cmd: bv64): bv64 {
    (cmd >> 12) & ADDR_MASK
  }

  /** Decoding gives back each field as far as the word has room for it, and no field leaks into another. */
  lemma RoundTrip(opcode: bv8, flags: bv8, nsge: bv8, addr: bv64)
    ensures var cmd := Encode(opcode, flags, nsge, addr);
            && DecodeOpcode(cmd) == (opcode & 0xf) as bv64
            && DecodeFlags(cmd) == (flags & 0xf) as bv64
            && DecodeNsge(cmd) == (nsge & 0xf) as bv64
            && DecodeAddr(cmd) == addr & ADDR_MASK
  {
  }

  /** So an SG count survives exactly when it is at most 15, the most an SG list can hold. */
  lemma NsgeSurvives(opcode: bv8, flags: bv8, nsge: bv8, addr: bv64)
    ensures DecodeNsge(Encode(opcode, flags, nsge, addr)) == nsge as bv64 <==> nsge <= 15
  {
    RoundTrip(opcode, flags, nsge, addr);
    assert nsge & 0xf == nsge <==> nsge <= 15;
  }
}

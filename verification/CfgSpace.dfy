/**
  Walks over linked lists kept in untrusted memory.  A list is given by the
  address it starts at and the link stored at each address; address 0 ends it.
  Nothing else is assumed: links may form a cycle.
 */
module ListWalk {

  /** The `k`-th address visited; a walk that has ended stays at 0. */
  function Walk(next: nat -> nat, start: nat, k: nat): nat {
    if k == 0 then start
    else
      var p := Walk(next, start, k - 1);
      if p == 0 then 0 else next(p)
  }

  /** `r` is the first address on the list that satisfies `found`. */
  ghost predicate IsFirst(next: nat -> nat, start: nat, found: nat -> bool, r: nat) {
    && r != 0 && found(r)
    && exists k: nat :: Walk(next, start, k) == r && NoneBefore(next, start, found, k)
  }

  /** None of the first `k` addresses satisfies `found`. */
  ghost predicate NoneBefore(next: nat -> nat, start: nat, found: nat -> bool, k: nat) {
    forall j: nat :: j < k ==> Walk(next, start, j) == 0 || !found(Walk(next, start, j))
  }

  /** No reachable address satisfies `found`. */
  ghost predicate NoneReachable(next: nat -> nat, start: nat, found: nat -> bool) {
    forall k: nat :: Walk(next, start, k) == 0 || !found(Walk(next, start, k))
  }

  lemma {:induction false} WalkOn(next: nat -> nat, start: nat, k: nat, k': nat, d: nat)
    requires Walk(next, start, k) == Walk(next, start, k')
    ensures Walk(next, start, k + d) == Walk(next, start, k' + d)
    decreases d
  {
    if d > 0 {
      WalkOn(next, start, k, k', d - 1);
      assert k + d - 1 == k + (d - 1) && k' + d - 1 == k' + (d - 1);
    }
  }

  lemma {:induction false} NonZeroBefore(next: nat -> nat, start: nat, k: nat, j: nat)
    requires Walk(next, start, k) != 0 && j <= k
    ensures Walk(next, start, j) != 0
    decreases k
  {
    if j < k {
      assert Walk(next, start, k - 1) != 0;
      NonZeroBefore(next, start, k - 1, j);
    }
  }

  /** The first time an address is visited. */
  ghost function FirstVisit(next: nat -> nat, start: nat, k: nat): (j: nat)
    ensures j <= k && Walk(next, start, j) == Walk(next, start, k)
    ensures forall i: nat :: i < j ==> Walk(next, start, i) != Walk(next, start, k)
  {
    FirstVisitFrom(next, start, k, 0)
  }

  ghost function FirstVisitFrom(next: nat -> nat, start: nat, k: nat, from: nat): (j: nat)
    requires from <= k
    requires forall i: nat :: i < from ==> Walk(next, start, i) != Walk(next, start, k)
    ensures j <= k && Walk(next, start, j) == Walk(next, start, k)
    ensures forall i: nat :: i < j ==> Walk(next, start, i) != Walk(next, start, k)
    decreases k - from
  {
    if Walk(next, start, from) == Walk(next, start, k) then from else FirstVisitFrom(next, start, k, from + 1)
  }

  /** The addresses visited before step `j`. */
  ghost function Visited(next: nat -> nat, start: nat, j: nat): set<nat> {
    if j == 0 then {} else Visited(next, start, j - 1) + {Walk(next, start, j - 1)}
  }

  /** The step at which a visited address was visited. */
  lemma {:induction false} VisitedAt(next: nat -> nat, start: nat, j: nat, a: nat) returns (i: nat)
    requires a in Visited(next, start, j)
    ensures i < j && Walk(next, start, i) == a
  {
    if a in Visited(next, start, j - 1) {
      i := VisitedAt(next, start, j - 1, a);
    } else {
      i := j - 1;
    }
  }

  /** On the way to a first visit every address is new. */
  lemma AllNew(next: nat -> nat, start: nat, j: nat, a: nat, b: nat)
    requires a < b < j
    requires forall i: nat :: i < j ==> Walk(next, start, i) != Walk(next, start, j)
    ensures Walk(next, start, a) != Walk(next, start, b)
  {
    if Walk(next, start, a) == Walk(next, start, b) {
      WalkOn(next, start, a, b, j - b);
      assert false;
    }
  }

  lemma {:induction false} VisitedSize(next: nat -> nat, start: nat, j: nat, i: nat)
    requires i <= j
    requires forall m: nat :: m < j ==> Walk(next, start, m) != Walk(next, start, j)
    ensures |Visited(next, start, i)| == i
    decreases i
  {
    if i > 0 {
      VisitedSize(next, start, j, i - 1);
      VisitIsNew(next, start, j, i - 1);
      OneLarger(Visited(next, start, i - 1), Walk(next, start, i - 1));
    }
  }

  lemma VisitIsNew(next: nat -> nat, start: nat, j: nat, i: nat)
    requires i < j
    requires forall m: nat :: m < j ==> Walk(next, start, m) != Walk(next, start, j)
    ensures Walk(next, start, i) !in Visited(next, start, i)
  {
    if Walk(next, start, i) in Visited(next, start, i) {
      var a := VisitedAt(next, start, i, Walk(next, start, i));
      AllNew(next, start, j, a, i);
    }
  }

  lemma OneLarger(s: set<nat>, x: nat)
    requires x !in s
    ensures |s + {x}| == |s| + 1
  {
  }

  lemma {:induction false} VisitedWithin(next: nat -> nat, start: nat, k: nat, j: nat, inner: set<nat>)
    requires Walk(next, start, k) != 0 && j <= k
    requires forall p: nat :: p < k ==> Walk(next, start, p) in inner
    ensures Visited(next, start, j) <= inner
    decreases j
  {
    if j > 0 {
      VisitedWithin(next, start, k, j - 1, inner);
    }
  }

  lemma SubsetSize(a: set<nat>, b: set<nat>)
    requires a <= b
    ensures |a| <= |b|
  {
    assert b == a + (b - a);
  }

  /**
    Pigeonhole: if every visited address with a successor lies in `inner`, each
    reachable address is visited within the first |inner| + 1 steps, however
    the links are arranged.
   */
  lemma ReachedSoon(next: nat -> nat, start: nat, k: nat, inner: set<nat>) returns (j: nat)
    requires Walk(next, start, k) != 0
    requires forall p: nat :: p < k ==> Walk(next, start, p) in inner
    ensures j <= |inner| && Walk(next, start, j) == Walk(next, start, k)
  {
    j := FirstVisit(next, start, k);
    VisitedSize(next, start, j, j);
    VisitedWithin(next, start, k, j, inner);
    SubsetSize(Visited(next, start, j), inner);
  }

  /** The multiples of four from 4 to 4m. */
  ghost function Aligned(m: nat): set<nat> {
    if m == 0 then {} else Aligned(m - 1) + {4 * m}
  }

  lemma {:induction false} AlignedIs(m: nat, a: nat)
    ensures a in Aligned(m) <==> (a % 4 == 0 && 4 <= a <= 4 * m)
    ensures |Aligned(m)| == m
  {
    if m > 0 {
      AlignedIs(m - 1, a);
      AlignedIs(m - 1, 4 * m);
    }
  }

  lemma InAligned(a: nat, m: nat)
    requires a % 4 == 0 && 0 < a <= 4 * m
    ensures a in Aligned(m)
  {
    AlignedIs(m, a);
  }
}

/** Reads of an emulated PCI configuration space and its two capability lists. */
module CfgSpace {
  import opened ListWalk

  /** cfgspace_t: the current bytes and the implemented size. */
  datatype Cfg = Cfg(cur: seq<nat>, size: nat)

  ghost predicate CfgOk(cs: Cfg) {
    && cs.size <= |cs.cur| && cs.size < 0x1_0000
    && forall i :: 0 <= i < |cs.cur| ==> cs.cur[i] < 256
  }

  /** cfgspace_getb: beyond the implementation zero, beyond the PCIe size all ones. */
  function GetB(cs: Cfg, offset: nat): (v: nat)
    requires CfgOk(cs)
    ensures v < 256
  {
    if offset < cs.size then cs.cur[offset] else if offset < 4096 then 0 else 0xff
  }

  function GetW(cs: Cfg, offset: nat): (v: nat)
    requires CfgOk(cs)
    ensures v < 0x1_0000
  {
    if offset + 1 < cs.size then 256 * cs.cur[offset + 1] + cs.cur[offset]
    else if offset + 1 < 4096 then 0 else 0xffff
  }

  function GetD(cs: Cfg, offset: nat): (v: nat)
    requires CfgOk(cs)
    ensures v < 0x1_0000_0000
  {
    if offset + 3 < cs.size then
      0x100_0000 * cs.cur[offset + 3] + 0x1_0000 * cs.cur[offset + 2] + 0x100 * cs.cur[offset + 1] + cs.cur[offset]
    else if offset + 3 < 4096 then 0 else 0xffff_ffff
  }

  /** `x & ~0x3` */
  function AlignDown(x: nat): (r: nat)
    ensures r % 4 == 0 && x - 3 <= r <= x
  {
    x / 4 * 4
  }

  // ----- capabilities ------------------------------------------------------

  /** The capability list exists if bit 4 of the status register is set. */
  predicate HasCapList(cs: Cfg)
    requires CfgOk(cs)
  {
    GetW(cs, 0x6) / 16 % 2 == 1
  }

  function FirstCap(cs: Cfg): nat
    requires CfgOk(cs)
  {
    AlignDown(GetB(cs, 0x34))
  }

  function NextCap(cs: Cfg): nat -> nat
    requires CfgOk(cs)
  {
    (p: nat) => AlignDown(GetB(cs, p + 1))
  }

  function CapIs(cs: Cfg, capid: nat): nat -> bool
    requires CfgOk(cs)
  {
    (p: nat) => GetB(cs, p) == capid
  }

  lemma {:induction false} CapsAligned(cs: Cfg, k: nat)
    requires CfgOk(cs)
    ensures var a := Walk(NextCap(cs), FirstCap(cs), k); a % 4 == 0 && a <= 252
  {
    if k > 0 {
      CapsAligned(cs, k - 1);
    }
  }

  lemma CapInside(cs: Cfg, k: nat, last: nat)
    requires CfgOk(cs) && Walk(NextCap(cs), FirstCap(cs), k) != 0 && last >= 63
    ensures Walk(NextCap(cs), FirstCap(cs), k) in Aligned(last)
  {
    CapsAligned(cs, k);
    InAligned(Walk(NextCap(cs), FirstCap(cs), k), last);
  }

  /** Every reachable capability is seen in the first 64 steps. */
  lemma CapSeen(cs: Cfg, k: nat, last: nat) returns (j: nat)
    requires CfgOk(cs) && Walk(NextCap(cs), FirstCap(cs), k) != 0 && last >= 63
    ensures j <= last && Walk(NextCap(cs), FirstCap(cs), j) == Walk(NextCap(cs), FirstCap(cs), k)
  {
    var next, start := NextCap(cs), FirstCap(cs);
    forall p: nat | p < k ensures Walk(next, start, p) in Aligned(last) {
      NonZeroBefore(next, start, k, p);
      CapInside(cs, p, last);
    }
    j := ReachedSoon(next, start, k, Aligned(last));
    AlignedIs(last, 0);
  }

  lemma CapsWithin64(cs: Cfg, capid: nat)
    requires CfgOk(cs)
    requires NoneBefore(NextCap(cs), FirstCap(cs), CapIs(cs, capid), 64)
    ensures NoneReachable(NextCap(cs), FirstCap(cs), CapIs(cs, capid))
  {
    var next, start, found := NextCap(cs), FirstCap(cs), CapIs(cs, capid);
    forall k: nat ensures Walk(next, start, k) == 0 || !found(Walk(next, start, k)) {
      if Walk(next, start, k) != 0 {
        var j := CapSeen(cs, k, 63);
      }
    }
  }

  lemma {:induction false} WalkEnded(next: nat -> nat, start: nat, k: nat, j: nat)
    requires Walk(next, start, k) == 0 && k <= j
    ensures Walk(next, start, j) == 0
    decreases j
  {
    if k < j {
      WalkEnded(next, start, k, j - 1);
    }
  }

  /** A walk that has ended finds nothing more. */
  lemma NoneAfterEnd(next: nat -> nat, start: nat, found: nat -> bool, k: nat, steps: nat)
    requires Walk(next, start, k) == 0 && NoneBefore(next, start, found, k) && k <= steps
    ensures NoneBefore(next, start, found, steps)
  {
    forall j: nat | j < steps
      ensures Walk(next, start, j) == 0 || !found(Walk(next, start, j))
    {
      if j >= k {
        WalkEnded(next, start, k, j);
      }
    }
  }

  /**
    cfgspace_findcap: the address of the first capability with this id, and 0
    exactly when the list is absent or no reachable capability has the id, for
    every content of configuration space, cyclic lists included.
   */
  method FindCap(cs: Cfg, capid: nat) returns (r: nat)
    requires CfgOk(cs)
    ensures r != 0 ==> HasCapList(cs) && IsFirst(NextCap(cs), FirstCap(cs), CapIs(cs, capid), r)
    ensures r == 0 ==> !HasCapList(cs) || NoneReachable(NextCap(cs), FirstCap(cs), CapIs(cs, capid))
  {
    if !HasCapList(cs) {
      return 0;
    }
    var loops := 256 / 4;
    var capaddr := FirstCap(cs);
    ghost var next, start, found := NextCap(cs), FirstCap(cs), CapIs(cs, capid);
    ghost var k := 0;
    while loops > 0 && capaddr != 0
      invariant 0 <= loops && loops + k == 64
      invariant capaddr == Walk(next, start, k)
      invariant NoneBefore(next, start, found, k)
      decreases loops
    {
      var id := GetB(cs, capaddr);
      if id == capid {
        return capaddr;
      }
      capaddr := AlignDown(GetB(cs, capaddr + 1));
      k := k + 1;
      loops := loops - 1;
    }
    if capaddr == 0 {
      NoneAfterEnd(next, start, found, k, 64);
    }
    CapsWithin64(cs, capid);
    return 0;
  }

  // ----- extended capabilities -----------------------------------------------

  /** extcap_get_id and extcap_get_next */
  function ExtId(caphdr: nat): nat {
    caphdr % 0x1_0000
  }

  function ExtNext(caphdr: nat): (r: nat)
    ensures r % 4 == 0 && r <= 0xffc
  {
    AlignDown(caphdr / 0x10_0000 % 0x1000)
  }

  function NextExt(cs: Cfg): nat -> nat
    requires CfgOk(cs)
  {
    (p: nat) => ExtNext(GetD(cs, p))
  }

  function ExtIs(cs: Cfg, capid: nat): nat -> bool
    requires CfgOk(cs)
  {
    (p: nat) => ExtId(GetD(cs, p)) == capid
  }

  lemma {:induction false} ExtAligned(cs: Cfg, k: nat)
    requires CfgOk(cs)
    ensures var a := Walk(NextExt(cs), 0x100, k); a % 4 == 0 && a <= 0xffc
  {
    if k > 0 {
      ExtAligned(cs, k - 1);
    }
  }

  /** Beyond the implemented space everything reads as zero, so lists end there. */
  lemma ListEndsOutside(cs: Cfg, a: nat)
    requires CfgOk(cs) && a <= 0xffc && cs.size <= a + 3
    ensures ExtNext(GetD(cs, a)) == 0
  {
    assert GetD(cs, a) == 0;
  }

  lemma InsideIsAligned(size: nat, a: nat)
    requires a % 4 == 0 && 0 < a && a + 3 < size
    ensures size / 4 >= 1 && a in Aligned(size / 4 - 1)
  {
    var i := a / 4;
    assert a == 4 * i && size / 4 >= i + 1;
    InAligned(a, size / 4 - 1);
  }

  /** An address with a successor lies inside the implemented space. */
  lemma InnerExt(cs: Cfg, k: nat)
    requires CfgOk(cs)
    requires Walk(NextExt(cs), 0x100, k) != 0 && Walk(NextExt(cs), 0x100, k + 1) != 0
    ensures cs.size / 4 >= 1 && Walk(NextExt(cs), 0x100, k) in Aligned(cs.size / 4 - 1)
  {
    var a := Walk(NextExt(cs), 0x100, k);
    assert Walk(NextExt(cs), 0x100, k + 1) == NextExt(cs)(a) == ExtNext(GetD(cs, a));
    ExtAligned(cs, k);
    if cs.size <= a + 3 {
      ListEndsOutside(cs, a);
    }
    InsideIsAligned(cs.size, a);
  }

  /** How many steps the loop takes at most: one per dword of the space, and always a first one. */
  function ExtSteps(cs: Cfg): nat {
    if cs.size < 4 then 1 else cs.size / 4
  }

  lemma ExtSeen(cs: Cfg, k: nat) returns (j: nat)
    requires CfgOk(cs) && Walk(NextExt(cs), 0x100, k) != 0
    ensures j < ExtSteps(cs) && Walk(NextExt(cs), 0x100, j) == Walk(NextExt(cs), 0x100, k)
  {
    var m := ExtSteps(cs) - 1;
    forall p: nat | p < k ensures Walk(NextExt(cs), 0x100, p) in Aligned(m) {
      NonZeroBefore(NextExt(cs), 0x100, k, p);
      NonZeroBefore(NextExt(cs), 0x100, k, p + 1);
      InnerExt(cs, p);
    }
    j := ReachedSoon(NextExt(cs), 0x100, k, Aligned(m));
    AlignedIs(m, 0);
  }

  lemma ExtWithinSize(cs: Cfg, capid: nat)
    requires CfgOk(cs)
    requires NoneBefore(NextExt(cs), 0x100, ExtIs(cs, capid), ExtSteps(cs))
    ensures NoneReachable(NextExt(cs), 0x100, ExtIs(cs, capid))
  {
    var next, found := NextExt(cs), ExtIs(cs, capid);
    forall k: nat ensures Walk(next, 0x100, k) == 0 || !found(Walk(next, 0x100, k)) {
      if Walk(next, 0x100, k) != 0 {
        var j := ExtSeen(cs, k);
      }
    }
  }

  /** One turn of the search that finds nothing; without implemented space the list ends at once. */
  lemma ExtTurn(cs: Cfg, capid: nat, k: nat, cap: nat)
    requires CfgOk(cs) && cap == Walk(NextExt(cs), 0x100, k) && 0 < cap <= 0xffc
    requires NoneBefore(NextExt(cs), 0x100, ExtIs(cs, capid), k) && ExtId(GetD(cs, cap)) != capid
    ensures ExtNext(GetD(cs, cap)) == Walk(NextExt(cs), 0x100, k + 1)
    ensures NoneBefore(NextExt(cs), 0x100, ExtIs(cs, capid), k + 1)
    ensures cs.size < 4 ==> ExtNext(GetD(cs, cap)) == 0
  {
    if cs.size < 4 {
      ListEndsOutside(cs, cap);
    }
  }

  /** The search ended without a hit: the list is over, or the loop bound is used up. */
  lemma ExtNotFound(cs: Cfg, capid: nat, k: nat)
    requires CfgOk(cs) && NoneBefore(NextExt(cs), 0x100, ExtIs(cs, capid), k) && k <= ExtSteps(cs)
    requires Walk(NextExt(cs), 0x100, k) == 0 || k == ExtSteps(cs)
    ensures NoneReachable(NextExt(cs), 0x100, ExtIs(cs, capid))
  {
    if Walk(NextExt(cs), 0x100, k) == 0 {
      NoneAfterEnd(NextExt(cs), 0x100, ExtIs(cs, capid), k, ExtSteps(cs));
    }
    ExtWithinSize(cs, capid);
  }

  /** cfgspace_findextcap: likewise for extended capabilities, for every size of configuration space. */
  method FindExtCap(cs: Cfg, capid: nat) returns (r: nat)
    requires CfgOk(cs)
    ensures r != 0 ==> IsFirst(NextExt(cs), 0x100, ExtIs(cs, capid), r)
    ensures r == 0 ==> NoneReachable(NextExt(cs), 0x100, ExtIs(cs, capid))
  {
    var loops: int := cs.size / 4;
    var cap := 0x100;
    var more := true;
    ghost var steps, k: nat := ExtSteps(cs), 0;
    while more
      invariant k <= steps && loops == cs.size / 4 - k && cap <= 0xffc
      invariant cap == Walk(NextExt(cs), 0x100, k)
      invariant NoneBefore(NextExt(cs), 0x100, ExtIs(cs, capid), k)
      invariant if more then cap != 0 && k < steps else cap == 0 || k == steps
      decreases more, steps - k
    {
      var caphdr := GetD(cs, cap);
      if ExtId(caphdr) == capid {
        return cap;
      }
      ExtTurn(cs, capid, k, cap);
      cap := ExtNext(caphdr);
      k := k + 1;
      loops := loops - 1;
      more := cap != 0 && loops != 0;
    }
    ExtNotFound(cs, capid, k);
    return 0;
  }

  // ----- lists as devices lay them out ------------------------------------------

  /** A capability at an address. */
  datatype Cap = Cap(addr: nat, id: nat)

  /** The address of the first capability with an id, 0 if there is none. */
  function FirstAddr(caps: seq<Cap>, id: nat): nat {
    if caps == [] then 0 else if caps[0].id == id then caps[0].addr else FirstAddr(caps[1..], id)
  }

  function AddrAt(caps: seq<Cap>, k: nat): nat {
    if k < |caps| then caps[k].addr else 0
  }

  lemma {:induction false} FirstAddrAt(caps: seq<Cap>, id: nat, k: nat)
    requires k < |caps| && caps[k].id == id && forall j :: 0 <= j < k ==> caps[j].id != id
    ensures FirstAddr(caps, id) == caps[k].addr
  {
    if k > 0 {
      FirstAddrAt(caps[1..], id, k - 1);
    }
  }

  lemma {:induction false} FirstAddrNone(caps: seq<Cap>, id: nat)
    requires forall j :: 0 <= j < |caps| ==> caps[j].id != id
    ensures FirstAddr(caps, id) == 0
  {
    if caps != [] {
      FirstAddrNone(caps[1..], id);
    }
  }

  /** Each capability links to the one after it, and the last one ends the list. */
  ghost predicate Chained(next: nat -> nat, start: nat, caps: seq<Cap>) {
    && start == AddrAt(caps, 0)
    && forall k :: 0 <= k < |caps| ==> Links(next, caps, k)
  }

  ghost predicate Links(next: nat -> nat, caps: seq<Cap>, k: nat)
    requires k < |caps|
  {
    caps[k].addr != 0 && next(caps[k].addr) == AddrAt(caps, k + 1)
  }

  lemma {:induction false} ListWalked(next: nat -> nat, start: nat, caps: seq<Cap>, k: nat)
    requires Chained(next, start, caps)
    ensures Walk(next, start, k) == AddrAt(caps, k)
  {
    if k > 0 {
      ListWalked(next, start, caps, k - 1);
      if k - 1 < |caps| {
        assert Links(next, caps, k - 1);
      }
    }
  }

  /** A search along such a list finds the first capability with the id. */
  lemma ListFound(next: nat -> nat, start: nat, found: nat -> bool, caps: seq<Cap>, id: nat, r: nat)
    requires Chained(next, start, caps)
    requires forall k :: 0 <= k < |caps| ==> (found(caps[k].addr) <==> caps[k].id == id)
    requires r != 0 ==> IsFirst(next, start, found, r)
    requires r == 0 ==> NoneReachable(next, start, found)
    ensures r == FirstAddr(caps, id)
  {
    forall k: nat
      ensures Walk(next, start, k) == AddrAt(caps, k)
    {
      ListWalked(next, start, caps, k);
    }
    if r != 0 {
      var k: nat :| Walk(next, start, k) == r && NoneBefore(next, start, found, k);
      assert r == AddrAt(caps, k);
      forall j: nat | j < k
        ensures caps[j].id != id
      {
        assert Links(next, caps, j) && Walk(next, start, j) == AddrAt(caps, j);
      }
      FirstAddrAt(caps, id, k);
    } else {
      forall j: nat | j < |caps|
        ensures caps[j].id != id
      {
        assert Links(next, caps, j) && Walk(next, start, j) == AddrAt(caps, j);
      }
      FirstAddrNone(caps, id);
    }
  }

  /**
    A capability list in the bytes of configuration space, as section 6.7 of the
    PCI Local Bus Specification 3.0 lays it out: bit 4 of the status register at
    0x06, the pointer at 0x34, and at each capability its id and the next pointer.
   */
  ghost predicate CapsAt(cs: Cfg, caps: seq<Cap>) {
    && 0x40 <= cs.size <= |cs.cur|
    && cs.cur[0x06] / 16 % 2 == 1 && cs.cur[0x34] == AddrAt(caps, 0)
    && forall k :: 0 <= k < |caps| ==> CapAt(cs, caps[k], AddrAt(caps, k + 1))
  }

  ghost predicate CapAt(cs: Cfg, cap: Cap, next: nat) {
    && 0x40 <= cap.addr && cap.addr + 1 < cs.size <= |cs.cur| && cap.addr % 4 == 0
    && cs.cur[cap.addr] == cap.id && cs.cur[cap.addr + 1] == next
  }

  lemma AlreadyAligned(x: nat)
    requires x % 4 == 0
    ensures AlignDown(x) == x
  {
  }

  lemma CapAligned(cs: Cfg, caps: seq<Cap>, k: nat)
    requires CapsAt(cs, caps)
    ensures AddrAt(caps, k) % 4 == 0 && AlignDown(AddrAt(caps, k)) == AddrAt(caps, k)
  {
    if k < |caps| {
      assert CapAt(cs, caps[k], AddrAt(caps, k + 1));
    }
    AlreadyAligned(AddrAt(caps, k));
  }

  lemma CapStep(cs: Cfg, caps: seq<Cap>, k: nat)
    requires CfgOk(cs) && CapsAt(cs, caps) && k < |caps|
    ensures caps[k].addr != 0 && NextCap(cs)(caps[k].addr) == AddrAt(caps, k + 1)
  {
    assert CapAt(cs, caps[k], AddrAt(caps, k + 1));
    CapAligned(cs, caps, k + 1);
  }

  lemma CapsStart(cs: Cfg, caps: seq<Cap>)
    requires CfgOk(cs) && CapsAt(cs, caps)
    ensures HasCapList(cs) && FirstCap(cs) == AddrAt(caps, 0)
  {
    StatusBit(cs.cur[0x06], cs.cur[0x07]);
    CapAligned(cs, caps, 0);
  }

  lemma StatusBit(low: nat, high: nat)
    ensures (256 * high + low) / 16 % 2 == low / 16 % 2
  {
    assert 256 * high + low == 16 * (16 * high) + low;
    assert (256 * high + low) / 16 == 16 * high + low / 16;
  }

  /** A link that is not implemented reads as zero and ends the list. */
  lemma CapListEndsOutside(cs: Cfg, a: nat)
    requires CfgOk(cs) && cs.size <= a + 1 < 4096
    ensures NextCap(cs)(a) == 0
  {
  }

  lemma CapIdAt(cs: Cfg, caps: seq<Cap>, capid: nat, k: nat)
    requires CfgOk(cs) && CapsAt(cs, caps) && k < |caps|
    ensures caps[k].addr != 0 && (CapIs(cs, capid)(caps[k].addr) <==> caps[k].id == capid)
  {
    assert CapAt(cs, caps[k], AddrAt(caps, k + 1));
  }

  /** Whatever answer FindCap gives about such a list, it is the address of the first capability with the id. */
  lemma CapsFound(cs: Cfg, caps: seq<Cap>, capid: nat, r: nat)
    requires CfgOk(cs) && CapsAt(cs, caps)
    requires r != 0 ==> HasCapList(cs) && IsFirst(NextCap(cs), FirstCap(cs), CapIs(cs, capid), r)
    requires r == 0 ==> !HasCapList(cs) || NoneReachable(NextCap(cs), FirstCap(cs), CapIs(cs, capid))
    ensures r == FirstAddr(caps, capid)
  {
    CapsStart(cs, caps);
    var next, start, found := NextCap(cs), FirstCap(cs), CapIs(cs, capid);
    forall k | 0 <= k < |caps|
      ensures Links(next, caps, k)
      ensures found(caps[k].addr) <==> caps[k].id == capid
    {
      CapStep(cs, caps, k);
      CapIdAt(cs, caps, capid, k);
    }
    ListFound(next, start, found, caps, capid, r);
  }

  /**
    An extended capability list, as section 7.6 of the PCI Express Base
    Specification 4.0 lays it out: the first header at 0x100, and in each header
    16 bits of id, 4 of version and 12 of next pointer, low bytes first.
   */
  ghost predicate ExtCapsAt(cs: Cfg, caps: seq<Cap>) {
    && caps != [] && caps[0].addr == 0x100
    && forall k :: 0 <= k < |caps| ==> ExtCapAt(cs, caps[k], AddrAt(caps, k + 1))
  }

  ghost predicate ExtCapAt(cs: Cfg, cap: Cap, next: nat) {
    && 0x100 <= cap.addr && cap.addr + 3 < cs.size <= |cs.cur| && cap.addr % 4 == 0 && cap.addr <= 0xffc
    && cap.id == cs.cur[cap.addr] + 0x100 * cs.cur[cap.addr + 1]
    && next == cs.cur[cap.addr + 2] / 16 + 16 * cs.cur[cap.addr + 3]
  }

  lemma ExtHeader(cs: Cfg, cap: Cap, next: nat)
    requires CfgOk(cs) && ExtCapAt(cs, cap, next) && next % 4 == 0
    ensures ExtId(GetD(cs, cap.addr)) == cap.id && ExtNext(GetD(cs, cap.addr)) == next
  {
    var a := cap.addr;
    HeaderFields(cs.cur[a], cs.cur[a + 1], cs.cur[a + 2], cs.cur[a + 3]);
    assert next / 4 * 4 == next;
  }

  lemma HeaderFields(b0: nat, b1: nat, b2: nat, b3: nat)
    requires b0 < 256 && b1 < 256 && b2 < 256 && b3 < 256
    ensures var v := 0x100_0000 * b3 + 0x1_0000 * b2 + 0x100 * b1 + b0;
            v % 0x1_0000 == 0x100 * b1 + b0 && v / 0x10_0000 % 0x1000 == 16 * b3 + b2 / 16
  {
    var v := 0x100_0000 * b3 + 0x1_0000 * b2 + 0x100 * b1 + b0;
    var hi := 16 * b3 + b2 / 16;
    assert v == 0x10_0000 * hi + (0x1_0000 * (b2 % 16) + 0x100 * b1 + b0);
    assert v / 0x10_0000 == hi;
  }

  /** Likewise for FindExtCap. */
  lemma ExtCapsFound(cs: Cfg, caps: seq<Cap>, capid: nat, r: nat)
    requires CfgOk(cs) && ExtCapsAt(cs, caps)
    requires r != 0 ==> IsFirst(NextExt(cs), 0x100, ExtIs(cs, capid), r)
    requires r == 0 ==> NoneReachable(NextExt(cs), 0x100, ExtIs(cs, capid))
    ensures r == FirstAddr(caps, capid)
  {
    var next, found := NextExt(cs), ExtIs(cs, capid);
    forall k | 0 <= k < |caps|
      ensures Links(next, caps, k)
      ensures found(caps[k].addr) <==> caps[k].id == capid
    {
      ExtCapStep(cs, caps, k);
    }
    ListFound(next, 0x100, found, caps, capid, r);
  }

  lemma ExtCapStep(cs: Cfg, caps: seq<Cap>, k: nat)
    requires CfgOk(cs) && ExtCapsAt(cs, caps) && k < |caps|
    ensures caps[k].addr != 0 && ExtId(GetD(cs, caps[k].addr)) == caps[k].id
    ensures ExtNext(GetD(cs, caps[k].addr)) == AddrAt(caps, k + 1)
  {
    assert ExtCapAt(cs, caps[k], AddrAt(caps, k + 1));
    if k + 1 < |caps| {
      assert ExtCapAt(cs, caps[k + 1], AddrAt(caps, k + 2));
    }
    ExtHeader(cs, caps[k], AddrAt(caps, k + 1));
  }
}

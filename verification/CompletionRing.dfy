/**
  The descriptor ring and its completion ring as a protocol between two actors.

  The driver posts descriptors and reads completions; the device completes
  posted descriptors in order, several per completion if it likes, and writes
  completions blindly: nothing stops it when the completion ring is full.  The
  only signal between them is one colour bit per completion, whose meaning
  flips on every pass of the ring.
 */
module CompletionRing {
  import opened RingIndex

  /** A completion slot: comp_index and the byte that carries the colour bit. */
  datatype Comp = Comp(index: nat, color: bv8)

  /** Everything either actor can read or write. */
  datatype State = State(
    n: nat,
    // driver
    head: nat, tail: nat, cqTail: nat, doneColor: bool,
    // shared memory
    cq: seq<Comp>,
    // device
    devTail: nat, devCq: nat, devColor: bool)

  /**
    What happened so far, which no actor can see: the number of descriptors
    posted, for each completion written the number of descriptors completed up
    to and including it, and how many completions the driver has taken.
   */
  datatype History = History(posted: nat, upTo: seq<nat>, read: nat)

  function ColorBit(color: bv8): bool {
    color & 0x80 != 0
  }

  /** color_match */
  predicate ColorMatch(color: bv8, doneColor: bool) {
    ColorBit(color) == doneColor
  }

  /** ionic_qcq_sanitize: indices zero, completion memory zero, done_color 1. */
  function Sanitized(n: nat): State {
    State(n, 0, 0, 0, true, seq(n, _ => Comp(0, 0)), 0, 0, true)
  }

  const NOTHING_YET: History := History(0, [], 0)

  // ----- steps -------------------------------------------------------------

  /** Low bits of the colour byte are free: an Rx completion keeps the packet type there. */
  datatype Step = Post | Complete(k: nat, low: bv8) | Service

  /** Descriptors the device may still complete, from the indices it sees. */
  function DevicePending(s: State): nat
    requires s.head < s.n && s.devTail < s.n
  {
    if s.head >= s.devTail then s.head - s.devTail else s.head + s.n - s.devTail
  }

  predicate Enabled(s: State, step: Step)
    requires s.head < s.n && s.tail < s.n && s.devTail < s.n
  {
    match step
    case Post => HasSpace(s.head, s.tail, s.n, 1)
    case Complete(k, _) => 1 <= k <= DevicePending(s)
    case Service => true
  }

  /** The index `k` places after `i`, wrapping at most once. */
  function Advance(i: nat, k: nat, n: nat): nat {
    if i + k < n then i + k else i + k - n
  }

  function ColorByte(bit: bool, low: bv8): bv8 {
    if bit then low | 0x80 else low & 0x7f
  }

  function AfterPost(s: State): State {
    s.(head := Next(s.head, s.n))
  }

  /** The device completes `k` descriptors with one completion entry. */
  function AfterComplete(s: State, k: nat, low: bv8): State
    requires s.devCq < |s.cq| && k >= 1
  {
    s.(cq := s.cq[s.devCq := Comp(Advance(s.devTail, k - 1, s.n), ColorByte(s.devColor, low))],
       devTail := Advance(s.devTail, k, s.n),
       devCq := Next(s.devCq, s.n),
       devColor := if s.devCq + 1 == s.n then !s.devColor else s.devColor)
  }

  /** Every descriptor up to comp_index is cleaned and the completion index
      moves on, flipping the colour at the end of the ring. */
  function AfterTaken(s: State): State
    requires s.cqTail < |s.cq|
  {
    s.(tail := Next(s.cq[s.cqTail].index, s.n),
       cqTail := Next(s.cqTail, s.n),
       doneColor := if s.cqTail + 1 == s.n then !s.doneColor else s.doneColor)
  }

  /** One turn of the driver's service loop: a slot whose colour does not match is left alone. */
  function AfterService(s: State): State
    requires s.cqTail < |s.cq|
  {
    if ColorMatch(s.cq[s.cqTail].color, s.doneColor) then AfterTaken(s) else s
  }

  ghost predicate Shape(s: State) {
    && RingSize(s.n)
    && |s.cq| == s.n
    && s.head < s.n && s.tail < s.n && s.cqTail < s.n && s.devTail < s.n && s.devCq < s.n
  }

  ghost function Apply(s: State, step: Step): State
    requires Shape(s) && Enabled(s, step)
  {
    match step
    case Post => AfterPost(s)
    case Complete(k, low) => AfterComplete(s, k, low)
    case Service => AfterService(s)
  }

  /** The history a step leaves, given whether the driver took a completion. */
  function Record(h: History, step: Step, taken: bool): History {
    match step
    case Post => h.(posted := h.posted + 1)
    case Complete(k, _) => h.(upTo := h.upTo + [Completed(h) + k])
    case Service => if taken then h.(read := h.read + 1) else h
  }

  // ----- the protocol invariant --------------------------------------------

  function Completed(h: History): nat {
    if |h.upTo| == 0 then 0 else h.upTo[|h.upTo| - 1]
  }

  /** Descriptors the driver has cleaned: those covered by the completions it took. */
  function Cleaned(h: History): nat {
    if h.read == 0 || h.read > |h.upTo| then 0 else h.upTo[h.read - 1]
  }

  /** The colour the device gives to its `w`-th completion. */
  function PassColor(w: nat, n: nat): bool
    requires n > 0
  {
    if w < n then true else !PassColor(w - n, n)
  }

  /** Each completion covers at least one more descriptor than the one before. */
  ghost predicate Growing(upTo: seq<nat>) {
    |upTo| == 0 ||
    (var last := |upTo| - 1;
     && upTo[last] > (if last == 0 then 0 else upTo[last - 1])
     && Growing(upTo[..last]))
  }

  ghost predicate HistoryOk(h: History, n: nat) {
    && Growing(h.upTo)
    && h.read <= |h.upTo|
    && Completed(h) <= h.posted
    && h.posted < Cleaned(h) + n
  }

  ghost predicate IndicesOk(s: State, h: History)
    requires s.n > 0
  {
    && s.head == Slot(h.posted, s.n)
    && s.tail == Slot(Cleaned(h), s.n)
    && s.devTail == Slot(Completed(h), s.n)
    && s.cqTail == Slot(h.read, s.n)
    && s.devCq == Slot(|h.upTo|, s.n)
    && s.doneColor == PassColor(h.read, s.n)
    && s.devColor == PassColor(|h.upTo|, s.n)
  }

  /** Completion `w` is what its slot holds: its index is the last descriptor it covers. */
  ghost predicate Holds(cq: seq<Comp>, upTo: seq<nat>, w: nat)
    requires |cq| > 0
    requires w < |upTo|
  {
    && upTo[w] >= 1
    && cq[Slot(w, |cq|)].index == Slot(upTo[w] - 1, |cq|)
    && ColorBit(cq[Slot(w, |cq|)].color) == PassColor(w, |cq|)
  }

  /** Completions `w ..` are all in memory. */
  ghost predicate Stored(cq: seq<Comp>, upTo: seq<nat>, w: nat)
    requires |cq| > 0
    decreases if w < |upTo| then |upTo| - w else 0
  {
    w >= |upTo| || (Holds(cq, upTo, w) && Stored(cq, upTo, w + 1))
  }

  /** Slots `j ..` still have colour 0. */
  ghost predicate Blank(cq: seq<Comp>, j: nat)
    decreases if j < |cq| then |cq| - j else 0
  {
    j >= |cq| || (!ColorBit(cq[j].color) && Blank(cq, j + 1))
  }

  /** The oldest completion not yet overwritten. */
  function Oldest(upTo: seq<nat>, n: nat): nat {
    if |upTo| <= n then 0 else |upTo| - n
  }

  /** The last `n` completions are in memory; slots never written still have colour 0. */
  ghost predicate MemoryOk(s: State, h: History)
    requires |s.cq| == s.n > 0
  {
    && Stored(s.cq, h.upTo, Oldest(h.upTo, s.n))
    && Blank(s.cq, |h.upTo|)
  }

  ghost predicate Inv(s: State, h: History) {
    && Shape(s)
    && HistoryOk(h, s.n)
    && IndicesOk(s, h)
    && MemoryOk(s, h)
  }

  // ----- runs --------------------------------------------------------------

  /** Does the slot the driver looks at carry the colour it waits for? */
  predicate Accepts(s: State)
    requires s.cqTail < |s.cq|
  {
    ColorMatch(s.cq[s.cqTail].color, s.doneColor)
  }

  /** `steps` is an interleaving that leads from one state to the other, every step enabled where it is taken. */
  ghost predicate Run(s: State, h: History, steps: seq<Step>, s': State, h': History)
    decreases |steps|
  {
    if steps == [] then s' == s && h' == h
    else
      && Shape(s)
      && Enabled(s, steps[0])
      && Run(Apply(s, steps[0]), Record(h, steps[0], Accepts(s)), steps[1..], s', h')
  }

  // ----- proofs ------------------------------------------------------------

  lemma {:induction false} AllBlank(cq: seq<Comp>, j: nat)
    requires forall i :: 0 <= i < |cq| ==> cq[i] == Comp(0, 0)
    ensures Blank(cq, j)
    decreases if j < |cq| then |cq| - j else 0
  {
    if j < |cq| {
      assert !ColorBit(cq[j].color);
      AllBlank(cq, j + 1);
    }
  }

  lemma SanitizedInv(n: nat)
    requires RingSize(n)
    ensures Inv(Sanitized(n), NOTHING_YET)
  {
    AllBlank(Sanitized(n).cq, 0);
  }

  lemma {:induction false} GrowingGap(upTo: seq<nat>, i: nat, j: nat)
    requires Growing(upTo)
    requires i <= j < |upTo|
    ensures upTo[i] + (j - i) <= upTo[j]
    decreases |upTo|
  {
    var last := |upTo| - 1;
    if j < last {
      GrowingGap(upTo[..last], i, j);
    } else if i < j {
      GrowingGap(upTo[..last], i, j - 1);
    }
  }

  lemma {:induction false} GrowingFirst(upTo: seq<nat>)
    requires Growing(upTo) && |upTo| > 0
    ensures upTo[0] >= 1
    decreases |upTo|
  {
    if |upTo| > 1 {
      GrowingFirst(upTo[..|upTo| - 1]);
    }
  }

  lemma GrowingAdd(upTo: seq<nat>, x: nat)
    requires Growing(upTo) && x > (if |upTo| == 0 then 0 else upTo[|upTo| - 1])
    ensures Growing(upTo + [x])
  {
    assert (upTo + [x])[..|upTo|] == upTo;
  }

  lemma {:induction false} StoredAt(cq: seq<Comp>, upTo: seq<nat>, from: nat, w: nat)
    requires |cq| > 0 && Stored(cq, upTo, from)
    requires from <= w < |upTo|
    ensures Holds(cq, upTo, w)
    decreases w - from
  {
    if from < w {
      StoredAt(cq, upTo, from + 1, w);
    }
  }

  lemma {:induction false} GrowingAtLeast(upTo: seq<nat>, j: nat)
    requires Growing(upTo)
    requires j < |upTo|
    ensures upTo[j] >= j + 1
  {
    GrowingFirst(upTo);
    GrowingGap(upTo, 0, j);
  }

  /**
    Unread completions never fill the completion ring: each covers at least one
    descriptor that is posted and not yet cleaned, and one slot stays free.
   */
  lemma UnreadBounded(h: History, n: nat)
    requires HistoryOk(h, n)
    ensures |h.upTo| - h.read <= h.posted - Cleaned(h) < n
    ensures Cleaned(h) <= Completed(h)
  {
    if h.read < |h.upTo| {
      if h.read == 0 {
        GrowingAtLeast(h.upTo, |h.upTo| - 1);
      } else {
        GrowingGap(h.upTo, h.read - 1, |h.upTo| - 1);
      }
    }
  }

  lemma {:induction false} PassColorNext(w: nat, n: nat)
    requires n > 0
    ensures PassColor(w + 1, n) == if Slot(w, n) + 1 == n then !PassColor(w, n) else PassColor(w, n)
  {
    if w >= n {
      PassColorNext(w - n, n);
    }
  }

  /** The heart of the protocol: the colour matches exactly on a fresh, unread completion. */
  lemma ColorIffFresh(s: State, h: History)
    requires Inv(s, h)
    ensures Accepts(s) <==> h.read < |h.upTo|
  {
    UnreadBounded(h, s.n);
    if h.read < |h.upTo| {
      StoredAt(s.cq, h.upTo, Oldest(h.upTo, s.n), h.read);
    } else if h.read < s.n {
      assert PassColor(h.read, s.n);
    } else {
      var w := h.read - s.n;
      StoredAt(s.cq, h.upTo, w, w);
      assert Slot(h.read, s.n) == Slot(w, s.n) && PassColor(h.read, s.n) == !PassColor(w, s.n);
    }
  }

  /**
    What an accepted completion says: it is the oldest unread one, and its index
    is the last of a non-empty block of posted, uncleaned descriptors starting
    at the driver's tail, so a loop that cleans until it has cleaned that index
    stops, and stops before the head.
   */
  lemma FreshCompletion(s: State, h: History)
    requires Inv(s, h)
    requires Accepts(s)
    ensures h.read < |h.upTo|
    ensures Cleaned(h) < h.upTo[h.read] <= h.posted < Cleaned(h) + s.n
    ensures s.cq[s.cqTail].index == Slot(h.upTo[h.read] - 1, s.n)
    ensures s.tail == Slot(Cleaned(h), s.n)
  {
    ColorIffFresh(s, h);
    UnreadBounded(h, s.n);
    StoredAt(s.cq, h.upTo, Oldest(h.upTo, s.n), h.read);
    if h.read == 0 {
      GrowingAtLeast(h.upTo, 0);
    } else {
      GrowingGap(h.upTo, h.read - 1, h.read);
    }
    GrowingGap(h.upTo, h.read, |h.upTo| - 1);
  }

  lemma AdvanceSlot(a: nat, k: nat, n: nat)
    requires n > 0 && k < n
    ensures Advance(Slot(a, n), k, n) == Slot(a + k, n)
  {
    SlotDistance(a, a + k, n);
  }

  lemma PendingExact(s: State, h: History)
    requires Inv(s, h)
    ensures DevicePending(s) == h.posted - Completed(h) < s.n
  {
    UnreadBounded(h, s.n);
    SlotDistance(Completed(h), h.posted, s.n);
  }

  /** Posting the `k` descriptors of one packet, when the space check granted them. */
  lemma PostsKeepInv(s: State, h: History, k: nat)
    requires Inv(s, h)
    requires h.posted + k < Cleaned(h) + s.n
    ensures Inv(s.(head := Slot(h.posted + k, s.n)), h.(posted := h.posted + k))
  {
    var h' := h.(posted := h.posted + k);
    assert Cleaned(h') == Cleaned(h) && Completed(h') == Completed(h);
    UnreadBounded(h, s.n);
  }

  lemma PostKeepsInv(s: State, h: History)
    requires Inv(s, h)
    requires Enabled(s, Post)
    ensures Inv(AfterPost(s), Record(h, Post, false))
  {
    UnreadBounded(h, s.n);
    GrantedSpaceKeepsGap(h.posted, Cleaned(h), s.n, 1);
    SlotNext(h.posted, s.n);
    PostsKeepInv(s, h, 1);
  }

  lemma ServiceKeepsInv(s: State, h: History)
    requires Inv(s, h)
    ensures Inv(AfterService(s), Record(h, Service, Accepts(s)))
  {
    if Accepts(s) {
      FreshCompletion(s, h);
      var h' := Record(h, Service, true);
      var s' := AfterService(s);
      SlotNext(h.upTo[h.read] - 1, s.n);
      SlotNext(h.read, s.n);
      PassColorNext(h.read, s.n);
      assert Cleaned(h') == h.upTo[h.read];
      assert s'.cq == s.cq && h'.upTo == h.upTo;
    }
  }

  lemma ColorByteBit(bit: bool, low: bv8)
    ensures ColorBit(ColorByte(bit, low)) == bit
  {
  }

  /** Writing completion `|upTo|` overwrites none of the `n - 1` completions before it. */
  lemma {:induction false} StoredWrite(cq: seq<Comp>, upTo: seq<nat>, w: nat, comp: Comp, x: nat)
    requires |cq| > 0 && Stored(cq, upTo, w)
    requires w <= |upTo| < w + |cq|
    requires x >= 1 && comp.index == Slot(x - 1, |cq|) && ColorBit(comp.color) == PassColor(|upTo|, |cq|)
    ensures Stored(cq[Slot(|upTo|, |cq|) := comp], upTo + [x], w)
    decreases |upTo| - w
  {
    var n, cq', upTo' := |cq|, cq[Slot(|upTo|, |cq|) := comp], upTo + [x];
    if w < |upTo| {
      StoredWrite(cq, upTo, w + 1, comp, x);
      if Slot(w, n) == Slot(|upTo|, n) {
        SlotInjective(w, |upTo|, n);
      }
      assert Holds(cq', upTo', w);
    } else {
      assert Holds(cq', upTo', w);
    }
  }

  lemma {:induction false} BlankWrite(cq: seq<Comp>, i: nat, j: nat, comp: Comp)
    requires Blank(cq, j) && i < j && i < |cq|
    ensures Blank(cq[i := comp], j)
    decreases if j < |cq| then |cq| - j else 0
  {
    if j < |cq| {
      BlankWrite(cq, i, j + 1, comp);
    }
  }

  lemma WriteKeepsMemory(s: State, h: History, k: nat, low: bv8)
    requires Inv(s, h)
    requires 1 <= k <= h.posted - Completed(h) < s.n
    ensures MemoryOk(AfterComplete(s, k, low), Record(h, Complete(k, low), false))
  {
    AdvanceSlot(Completed(h), k - 1, s.n);
    ColorByteBit(s.devColor, low);
    var comp := Comp(Advance(s.devTail, k - 1, s.n), ColorByte(s.devColor, low));
    MemoryWrite(s.cq, h.upTo, comp, Completed(h) + k);
  }

  /** One more completion in memory: the last `n` are there, and slots not yet used are blank. */
  lemma MemoryWrite(cq: seq<Comp>, upTo: seq<nat>, comp: Comp, x: nat)
    requires |cq| > 0 && Stored(cq, upTo, Oldest(upTo, |cq|)) && Blank(cq, |upTo|)
    requires x >= 1 && comp.index == Slot(x - 1, |cq|) && ColorBit(comp.color) == PassColor(|upTo|, |cq|)
    ensures Stored(cq[Slot(|upTo|, |cq|) := comp], upTo + [x], Oldest(upTo + [x], |cq|))
    ensures Blank(cq[Slot(|upTo|, |cq|) := comp], |upTo| + 1)
  {
    StoredWrite(cq, upTo, Oldest(upTo + [x], |cq|), comp, x);
    if |upTo| < |cq| {
      BlankWrite(cq, Slot(|upTo|, |cq|), |upTo| + 1, comp);
    }
  }

  lemma CompleteKeepsInv(s: State, h: History, k: nat, low: bv8)
    requires Inv(s, h)
    requires Enabled(s, Complete(k, low))
    ensures Inv(AfterComplete(s, k, low), Record(h, Complete(k, low), false))
  {
    PendingExact(s, h);
    CompleteHistory(h, k, low, s.n);
    CompleteIndices(s, h, k, low);
    WriteKeepsMemory(s, h, k, low);
  }

  lemma CompleteHistory(h: History, k: nat, low: bv8, n: nat)
    requires HistoryOk(h, n) && k >= 1 && Completed(h) + k <= h.posted
    ensures HistoryOk(Record(h, Complete(k, low), false), n)
    ensures Cleaned(Record(h, Complete(k, low), false)) == Cleaned(h)
  {
    UnreadBounded(h, n);
    GrowingAdd(h.upTo, Completed(h) + k);
  }

  lemma CompleteIndices(s: State, h: History, k: nat, low: bv8)
    requires Shape(s) && HistoryOk(h, s.n) && IndicesOk(s, h) && k >= 1
    requires Completed(h) + k <= h.posted
    ensures IndicesOk(AfterComplete(s, k, low), Record(h, Complete(k, low), false))
  {
    CompleteHistory(h, k, low, s.n);
    UnreadBounded(h, s.n);
    AdvanceSlot(Completed(h), k, s.n);
    SlotNext(|h.upTo|, s.n);
    PassColorNext(|h.upTo|, s.n);
  }

  lemma StepKeepsInv(s: State, h: History, step: Step)
    requires Inv(s, h) && Enabled(s, step)
    ensures Inv(Apply(s, step), Record(h, step, Accepts(s)))
  {
    match step
    case Post => PostKeepsInv(s, h);
    case Complete(k, low) => CompleteKeepsInv(s, h, k, low);
    case Service => ServiceKeepsInv(s, h);
  }

  lemma {:induction false} RunKeepsInv(s: State, h: History, steps: seq<Step>, s': State, h': History)
    requires Inv(s, h)
    requires Run(s, h, steps, s', h')
    ensures Inv(s', h')
    decreases |steps|
  {
    if steps != [] {
      StepKeepsInv(s, h, steps[0]);
      RunKeepsInv(Apply(s, steps[0]), Record(h, steps[0], Accepts(s)), steps[1..], s', h');
    }
  }

  /**
    Main result.  After every interleaving of posting, completing and servicing
    from a sanitized queue: the driver accepts the slot it looks at exactly when
    that slot holds an unread completion, at most n-1 completions are unread
    (so none is ever overwritten before it is read), and the tail has not
    passed what the device completed, which has not passed the head.
   */
  lemma EveryInterleaving(n: nat, steps: seq<Step>, s': State, h': History)
    requires RingSize(n)
    requires Run(Sanitized(n), NOTHING_YET, steps, s', h')
    ensures Inv(s', h')
    ensures Accepts(s') <==> h'.read < |h'.upTo|
    ensures 0 <= |h'.upTo| - h'.read < n
    ensures Cleaned(h') <= Completed(h') <= h'.posted < Cleaned(h') + n
  {
    SanitizedInv(n);
    RunKeepsInv(Sanitized(n), NOTHING_YET, steps, s', h');
    assert s'.n == n by { RunKeepsSize(Sanitized(n), NOTHING_YET, steps, s', h'); }
    ColorIffFresh(s', h');
    UnreadBounded(h', n);
  }

  lemma {:induction false} RunKeepsSize(s: State, h: History, steps: seq<Step>, s': State, h': History)
    requires Run(s, h, steps, s', h')
    ensures s'.n == s.n
    decreases |steps|
  {
    if steps != [] {
      RunKeepsSize(Apply(s, steps[0]), Record(h, steps[0], Accepts(s)), steps[1..], s', h');
    }
  }

  // ----- one descriptor per completion: the receive side --------------------

  /** ionic_rx_service and ionic_adminq_service also refuse when the ring looks empty,
      and ionic_rx_service when comp_index is not the tail. */
  predicate RxAccepts(s: State)
    requires s.cqTail < |s.cq|
  {
    && Accepts(s)
    && s.tail != s.head
    && s.tail == s.cq[s.cqTail].index
  }

  predicate AdminAccepts(s: State)
    requires s.cqTail < |s.cq|
  {
    && Accepts(s)
    && s.tail != s.head
  }

  ghost predicate OnePerCompletion(h: History) {
    forall w :: 0 <= w < |h.upTo| ==> h.upTo[w] == w + 1
  }

  ghost predicate SingleSteps(steps: seq<Step>) {
    forall i :: 0 <= i < |steps| && steps[i].Complete? ==> steps[i].k == 1
  }

  lemma {:induction false} SingleRun(s: State, h: History, steps: seq<Step>, s': State, h': History)
    requires OnePerCompletion(h) && SingleSteps(steps)
    requires Run(s, h, steps, s', h')
    ensures OnePerCompletion(h')
    decreases |steps|
  {
    if steps != [] {
      SingleRun(Apply(s, steps[0]), Record(h, steps[0], Accepts(s)), steps[1..], s', h');
    }
  }

  /**
    On a queue whose device writes one completion per descriptor, the extra
    checks of the receive and admin services never turn away a fresh completion.
   */
  lemma EveryRxInterleaving(n: nat, steps: seq<Step>, s': State, h': History)
    requires RingSize(n) && SingleSteps(steps)
    requires Run(Sanitized(n), NOTHING_YET, steps, s', h')
    ensures Inv(s', h')
    ensures RxAccepts(s') <==> h'.read < |h'.upTo|
    ensures AdminAccepts(s') <==> h'.read < |h'.upTo|
  {
    EveryInterleaving(n, steps, s', h');
    SingleRun(Sanitized(n), NOTHING_YET, steps, s', h');
    if Accepts(s') {
      FreshCompletion(s', h');
      EmptyExact(h'.posted, Cleaned(h'), s'.n);
    }
  }
}

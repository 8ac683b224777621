/**
  Transmit flow control: ionic_maybe_stop_tx, ionic_check_stop_tx and the wake
  at the end of ionic_tx_cq_service, as two threads that interleave between
  any two of their reads and writes of the stop flag and of the ring.

  The ring is seen through what both sides really use, the number of entries
  between tail and head; ionic_q_space_avail is then `n - 1 - inRing`
  (RingIndex.SpaceAvailExact).
 */
module StopWake {
  import opened Common

  const TSO_DESCS_NEEDED := 44
  const MIN_TXRX_DESC := 64

  /** Where the transmitting thread stands. */
  datatype Xmit =
    | XIdle
    | XCheck(want: nat, gso: bool)     // about to test for space
    | XStop(want: nat, gso: bool)      // no space seen, about to stop the queue
    | XRecheck(want: nat, gso: bool)   // stopped, about to test again
    | XRestart(want: nat, gso: bool)   // space seen after all, about to start the queue
    | XSend(want: nat, gso: bool)      // space granted
    | XPreStop                         // ionic_check_stop_tx saw the ring nearly full
    | XPost(left: nat)                 // posting descriptors

  /** Where the completion thread stands. */
  datatype Clean =
    | CIdle
    | CCleaning       // has cleaned something in this call
    | CCheckStopped   // about to test the stop flag
    | CCheckSpace     // saw it set, about to test for space
    | CWake           // about to wake the queue

  datatype State = State(n: nat, inRing: nat, stopped: bool, x: Xmit, c: Clean)

  datatype Step =
    | Start(want: nat, gso: bool)   // the stack hands over a packet
    | XStep                         // the transmitting thread takes its next step
    | MapError                      // mapping the packet failed, it is dropped
    | CleanOne                      // the completion thread cleans one entry
    | CStep                         // the completion thread takes its next step

  function Avail(s: State): int {
    s.n - 1 - s.inRing
  }

  function Initial(n: nat): State {
    State(n, 0, false, XIdle, CIdle)
  }

  predicate Enabled(s: State, step: Step) {
    match step
    case Start(want, gso) => s.x == XIdle && !s.stopped && want >= 1 && (!gso ==> want == 1)
    case XStep => s.x != XIdle
    case MapError => s.x.XSend?
    case CleanOne => s.inRing >= 1 && (s.c == CIdle || s.c == CCleaning)
    case CStep => s.c != CIdle
  }

  /** One read or one write of the transmitting thread. */
  function XNext(s: State): State {
    match s.x
    case XIdle => s
    case XCheck(w, g) => s.(x := if Avail(s) >= w then XSend(w, g) else XStop(w, g))
    case XStop(w, g) => s.(stopped := true, x := XRecheck(w, g))
    case XRecheck(w, g) => s.(x := if Avail(s) >= w then XRestart(w, g) else XIdle)
    case XRestart(w, g) => s.(stopped := false, x := XSend(w, g))
    case XSend(w, g) =>
      if g then s.(x := XPost(w))
      else if Avail(s) >= MAX_SKB_FRAGS + 1 then s.(x := XPost(1)) else s.(x := XPreStop)
    case XPreStop => s.(stopped := true, x := XPost(1))
    case XPost(k) => s.(inRing := s.inRing + 1, x := if k <= 1 then XIdle else XPost(k - 1))
  }

  /** One read or one write of the completion thread. */
  function CNext(s: State): State {
    match s.c
    case CIdle => s
    case CCleaning => s.(c := CCheckStopped)
    case CCheckStopped => s.(c := if s.stopped then CCheckSpace else CIdle)
    case CCheckSpace => s.(c := if Avail(s) >= TSO_DESCS_NEEDED then CWake else CIdle)
    case CWake => s.(stopped := false, c := CIdle)
  }

  function Apply(s: State, step: Step): State
    requires Enabled(s, step)
  {
    match step
    case Start(want, gso) => s.(x := XCheck(want, gso))
    case XStep => XNext(s)
    case MapError => s.(x := XIdle)
    case CleanOne => s.(inRing := s.inRing - 1, c := CCleaning)
    case CStep => CNext(s)
  }

  /** A run in which no packet asks for more than `limit` descriptors. */
  ghost predicate Run(s: State, steps: seq<Step>, limit: nat, s': State)
    decreases |steps|
  {
    if steps == [] then s' == s
    else
      && Enabled(s, steps[0])
      && (steps[0].Start? ==> steps[0].want <= limit)
      && Run(Apply(s, steps[0]), steps[1..], limit, s')
  }

  /** An interleaving from an idle, empty queue. */
  ghost predicate Leads(n: nat, steps: seq<Step>, limit: nat, s': State) {
    Run(Initial(n), steps, limit, s')
  }

  /** Both threads idle, queue stopped, nothing in the ring: no completion will ever wake it. */
  predicate Stuck(s: State) {
    s.x == XIdle && s.c == CIdle && s.stopped && s.inRing == 0
  }

  // ----- safety ------------------------------------------------------------

  ghost predicate Granted(s: State, limit: nat) {
    match s.x
    case XIdle => true
    case XCheck(w, g) => 1 <= w <= limit && !s.stopped && (!g ==> w == 1)
    case XStop(w, g) => 1 <= w <= limit && !s.stopped && (!g ==> w == 1)
    case XRecheck(w, g) => 1 <= w <= limit && (!g ==> w == 1)
    case XRestart(w, g) => 1 <= w <= Avail(s) && (!g ==> w == 1)
    case XSend(w, g) => 1 <= w <= Avail(s) && !s.stopped && (!g ==> w == 1)
    case XPreStop => 1 <= Avail(s)
    case XPost(k) => 1 <= k <= Avail(s)
  }

  ghost predicate Inv(s: State, limit: nat) {
    && s.inRing < s.n
    && Granted(s, limit)
    && (s.stopped && s.x == XIdle && s.c == CIdle ==> s.inRing >= 1)
  }

  lemma StepKeepsInv(s: State, step: Step, limit: nat)
    requires s.n > TSO_DESCS_NEEDED && limit < s.n
    requires Inv(s, limit) && Enabled(s, step)
    requires step.Start? ==> step.want <= limit
    ensures Inv(Apply(s, step), limit)
  {
  }

  lemma {:induction false} RunKeepsInv(s: State, steps: seq<Step>, limit: nat, s': State)
    requires s.n > TSO_DESCS_NEEDED && limit < s.n
    requires Inv(s, limit) && Run(s, steps, limit, s')
    ensures Inv(s', limit) && s'.n == s.n
    decreases |steps|
  {
    if steps != [] {
      StepKeepsInv(s, steps[0], limit);
      RunKeepsInv(Apply(s, steps[0]), steps[1..], limit, s');
    }
  }

  /**
    No lost wakeup: with room for a TSO packet in the ring and no packet larger
    than the ring, no interleaving ends stopped, idle and empty; and the ring
    never overflows.
   */
  lemma NoLostWakeup(n: nat, steps: seq<Step>, limit: nat, s': State)
    requires n >= MIN_TXRX_DESC && limit < n
    requires Leads(n, steps, limit, s')
    ensures !Stuck(s')
    ensures s'.inRing < n
  {
    RunKeepsInv(Initial(n), steps, limit, s');
  }

  // ----- the wakeup that is still due ---------------------------------------

  /** The completion thread left alone: clean everything, then finish the call. */
  function Drained(s: State): State
    requires s.c == CIdle || s.c == CCleaning
    decreases s.inRing
  {
    if s.inRing == 0 then CNext(CNext(CNext(CNext(s)))) else Drained(Apply(s, CleanOne))
  }

  lemma {:induction false} CleaningWakes(s: State)
    requires s.n > TSO_DESCS_NEEDED && s.stopped
    requires s.c == CCleaning
    ensures !Drained(s).stopped && Drained(s).c == CIdle && Drained(s).inRing == 0
    decreases s.inRing
  {
    if s.inRing == 0 {
      assert CNext(s).c == CCheckStopped;
      assert CNext(CNext(s)).c == CCheckSpace;
      assert CNext(CNext(CNext(s))).c == CWake;
    } else {
      CleaningWakes(Apply(s, CleanOne));
    }
  }

  /** In every reachable idle, stopped state, completing what is in the ring does wake the queue. */
  lemma StoppedQueueWakes(n: nat, steps: seq<Step>, limit: nat, s: State)
    requires n >= MIN_TXRX_DESC && limit < n
    requires Leads(n, steps, limit, s)
    requires s.x == XIdle && s.c == CIdle && s.stopped
    ensures s.inRing >= 1
    ensures !Drained(s).stopped
  {
    RunKeepsInv(Initial(n), steps, limit, s);
    CleaningWakes(Apply(s, CleanOne));
  }

  // ----- what the transmitting thread does with a packet ------------------------

  /** The transmitting thread left alone for up to k steps, until it is idle. */
  function Alone(s: State, k: nat): State
    decreases k
  {
    if k == 0 || s.x == XIdle then s else Alone(XNext(s), k - 1)
  }

  lemma {:induction false} PostsAll(s: State, left: nat, k: nat)
    requires s.x == XPost(left) && 1 <= left <= k
    ensures Alone(s, k) == s.(inRing := s.inRing + left, x := XIdle)
    decreases left
  {
    if left > 1 {
      PostsAll(XNext(s), left - 1, k - 1);
    } else {
      assert Alone(XNext(s), k - 1) == XNext(s);
    }
  }

  /**
    A packet that was granted its descriptors is posted in full.  A packet of one
    descriptor also stops the queue, if and only if fewer than MAX_SKB_FRAGS + 1
    were free for the next one.
   */
  lemma GrantedIsPosted(s: State, w: nat, g: bool, k: nat)
    requires s.x == XSend(w, g) && w >= 1 && (!g ==> w == 1) && k >= w + 2
    ensures Alone(s, k) == s.(inRing := s.inRing + w, x := XIdle,
                              stopped := s.stopped || (!g && Avail(s) < MAX_SKB_FRAGS + 1))
  {
    var s1 := XNext(s);
    if s1.x == XPreStop {
      PostsAll(XNext(s1), 1, k - 2);
    } else {
      PostsAll(s1, w, k - 1);
    }
  }

  /**
    The whole of one call, undisturbed: the packet is posted if there is room for
    it, and otherwise the queue is stopped and the packet left with the stack.
   */
  lemma PacketAlone(s: State, w: nat, g: bool, k: nat)
    requires s.x == XCheck(w, g) && !s.stopped && w >= 1 && (!g ==> w == 1) && k >= w + 3
    ensures Alone(s, k) ==
            if Avail(s) >= w then
              s.(inRing := s.inRing + w, x := XIdle, stopped := !g && Avail(s) < MAX_SKB_FRAGS + 1)
            else s.(stopped := true, x := XIdle)
  {
    var s1 := XNext(s);
    if Avail(s) >= w {
      GrantedIsPosted(s1, w, g, k - 1);
    } else {
      var s2 := XNext(s1);
      var s3 := XNext(s2);
      assert Alone(s, k) == Alone(s1, k - 1) == Alone(s2, k - 2) == Alone(s3, k - 3) == s3;
    }
  }

  /** The end of a completion call, undisturbed: a stopped queue is woken iff there is room for a TSO packet. */
  lemma WokenIff(s: State)
    requires s.c == CCleaning
    ensures CNext(CNext(CNext(CNext(s)))) == s.(c := CIdle, stopped := s.stopped && Avail(s) < TSO_DESCS_NEEDED)
  {
  }

  /** Descriptors the packet in hand has been granted and not yet posted. */
  function Owed(x: Xmit): nat {
    match x
    case XSend(w, _) => w
    case XPreStop => 1
    case XPost(k) => k
    case _ => 0
  }

  /** Descriptors a step grants: the packet passes one of the two space checks. */
  function Grants(s: State, step: Step): nat {
    match s.x
    case XCheck(w, _) => if step == XStep && Avail(s) >= w then w else 0
    case XRestart(w, _) => if step == XStep then w else 0
    case _ => 0
  }

  function GrantedBy(s: State, steps: seq<Step>): nat
    decreases |steps|
  {
    if steps == [] || !Enabled(s, steps[0]) then 0
    else Grants(s, steps[0]) + GrantedBy(Apply(s, steps[0]), steps[1..])
  }

  /** Descriptors of granted packets that were dropped because they could not be mapped. */
  function Dropped(s: State, steps: seq<Step>): nat
    decreases |steps|
  {
    if steps == [] || !Enabled(s, steps[0]) then 0
    else (if steps[0] == MapError then Owed(s.x) else 0) + Dropped(Apply(s, steps[0]), steps[1..])
  }

  function Cleaned(steps: seq<Step>): nat {
    if steps == [] then 0 else (if steps[0] == CleanOne then 1 else 0) + Cleaned(steps[1..])
  }

  /** Packets ask for at least one descriptor, those that are not GSO for exactly one. */
  predicate Sane(x: Xmit) {
    match x
    case XIdle => true
    case XPreStop => true
    case XPost(k) => k >= 1
    case XCheck(w, g) => w >= 1 && (!g ==> w == 1)
    case XStop(w, g) => w >= 1 && (!g ==> w == 1)
    case XRecheck(w, g) => w >= 1 && (!g ==> w == 1)
    case XRestart(w, g) => w >= 1 && (!g ==> w == 1)
    case XSend(w, g) => w >= 1 && (!g ==> w == 1)
  }

  lemma StepConserves(s: State, step: Step)
    requires Sane(s.x) && Enabled(s, step)
    ensures var s' := Apply(s, step);
            && Sane(s'.x)
            && s'.inRing + Owed(s'.x)
               + (if step == MapError then Owed(s.x) else 0) + (if step == CleanOne then 1 else 0)
               == s.inRing + Owed(s.x) + Grants(s, step)
  {
  }

  /**
    Conservation, in every interleaving: the ring holds exactly what was granted,
    less what was dropped, cleaned, or is still owed to the packet in hand.
   */
  lemma {:induction false} EveryGrantIsPosted(s: State, steps: seq<Step>, limit: nat, s': State)
    requires Sane(s.x) && Run(s, steps, limit, s')
    ensures s'.inRing + Owed(s'.x) + Dropped(s, steps) + Cleaned(steps) == s.inRing + Owed(s.x) + GrantedBy(s, steps)
    decreases |steps|
  {
    if steps != [] {
      StepConserves(s, steps[0]);
      EveryGrantIsPosted(Apply(s, steps[0]), steps[1..], limit, s');
    }
  }

  // ----- and exactly then ---------------------------------------------------

  /** A packet that asks for more descriptors than the ring can ever offer stalls an empty ring. */
  lemma OversizePacketStalls(n: nat, limit: nat) returns (steps: seq<Step>, s': State)
    requires n >= 1 && limit >= n
    ensures Leads(n, steps, limit, s') && Stuck(s')
  {
    var s0 := Initial(n);
    var s1 := Apply(s0, Start(limit, true));
    var s2 := Apply(s1, XStep);
    var s3 := Apply(s2, XStep);
    s' := Apply(s3, XStep);
    steps := [Start(limit, true), XStep, XStep, XStep];
    assert Run(s3, [XStep], limit, s') by { assert [XStep][1..] == []; }
    assert Run(s2, [XStep, XStep], limit, s') by { assert [XStep, XStep][1..] == [XStep]; }
    assert Run(s1, [XStep, XStep, XStep], limit, s') by { assert [XStep, XStep, XStep][1..] == [XStep, XStep]; }
    assert steps[1..] == [XStep, XStep, XStep];
  }

  /**
    The descriptor bound is exact: with a ring of a size the driver configures,
    every run avoids the lost wakeup if and only if no packet may ask for as
    many descriptors as the ring has slots.
   */
  lemma NoLostWakeupIff(n: nat, limit: nat)
    requires n >= MIN_TXRX_DESC
    ensures (forall steps, s' :: Leads(n, steps, limit, s') ==> !Stuck(s')) <==> limit < n
  {
    if limit < n {
      forall steps, s' | Leads(n, steps, limit, s') ensures !Stuck(s') {
        NoLostWakeup(n, steps, limit, s');
      }
    } else {
      var steps, s' := OversizePacketStalls(n, limit);
      assert Leads(n, steps, limit, s') && Stuck(s');
    }
  }
}

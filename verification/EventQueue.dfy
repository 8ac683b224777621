/**
  The event queue between the PCIe service (pciesvc_event_handler) and its
  reader.  There are no locks: the producer writes only slots and evq_head, the
  reader only evq_tail, and either may run between any two reads and writes of
  the other.
 */
module EventQueue {
  import opened RingIndex

  const EVENT_QUEUE_LENGTH := 1024
  const EV_QFULL := 5

  datatype Event = Event(evtype: nat, data: nat)

  /** Where the handler stands; `marked` is its return value -1. */
  datatype Producer =
    | PIdle
    | PCheckNear(ev: Event)                 // not full, about to test for nearly full
    | PWrite(ev: Event, marked: bool)       // about to copy into the slot
    | PAdvance(ev: Event, marked: bool)     // slot written, about to move evq_head

  datatype Consumer =
    | CIdle
    | CCopy                // saw a non-empty queue, about to copy the slot
    | CAdvance(ev: Event)  // about to move evq_tail

  /** What became of an event the service handed over. */
  datatype Outcome = Accepted(ev: Event) | Marked(ev: Event) | Refused(ev: Event)

  /** `written`, `delivered` and `log` are histories: entries whose head move
      is done, events handed to the reader, and the outcomes so far. */
  datatype State = State(
    n: nat, head: nat, tail: nat, evq: seq<Event>, p: Producer, c: Consumer,
    written: seq<Event>, delivered: seq<Event>, log: seq<Outcome>)

  datatype Step = Submit(ev: Event) | PStep | CStep

  function Initial(n: nat, evq: seq<Event>): State {
    State(n, 0, 0, evq, PIdle, CIdle, [], [], [])
  }

  predicate Enabled(s: State, step: Step) {
    match step
    case Submit(_) => s.p == PIdle
    case PStep => s.p != PIdle
    case CStep => true
  }

  /** `(head + 1) % EVENT_QUEUE_LENGTH` and `(head + 2) % EVENT_QUEUE_LENGTH` */
  function Next2(i: nat, n: nat): nat {
    Next(Next(i, n), n)
  }

  function AfterSubmit(s: State, ev: Event): State {
    if Next(s.head, s.n) == s.tail then s.(log := s.log + [Refused(ev)]) else s.(p := PCheckNear(ev))
  }

  function AfterPStep(s: State): State
    requires s.head < |s.evq|
  {
    match s.p
    case PIdle => s
    case PCheckNear(ev) =>
      if Next2(s.head, s.n) == s.tail then s.(p := PWrite(ev, true)) else s.(p := PWrite(ev, false))
    case PWrite(ev, m) => s.(evq := s.evq[s.head := Entry(ev, m)], p := PAdvance(ev, m))
    case PAdvance(ev, m) =>
      s.(head := Next(s.head, s.n), p := PIdle,
         written := s.written + [Entry(ev, m)],
         log := s.log + [if m then Marked(ev) else Accepted(ev)])
  }

  /** A nearly full queue turns the event into a QFULL marker. */
  function Entry(ev: Event, marked: bool): Event {
    if marked then ev.(evtype := EV_QFULL) else ev
  }

  function AfterCStep(s: State): State
    requires s.tail < |s.evq|
  {
    match s.c
    case CIdle => if s.head != s.tail then s.(c := CCopy) else s
    case CCopy => s.(c := CAdvance(s.evq[s.tail]))
    case CAdvance(ev) => s.(tail := Next(s.tail, s.n), c := CIdle, delivered := s.delivered + [ev])
  }

  ghost predicate Shape(s: State) {
    s.n >= 3 && |s.evq| == s.n && s.head < s.n && s.tail < s.n
  }

  function Apply(s: State, step: Step): State
    requires s.head < |s.evq| && s.tail < |s.evq|
  {
    match step
    case Submit(ev) => AfterSubmit(s, ev)
    case PStep => AfterPStep(s)
    case CStep => AfterCStep(s)
  }

  ghost predicate Run(s: State, steps: seq<Step>, s': State)
    decreases |steps|
  {
    if steps == [] then s' == s
    else Shape(s) && Enabled(s, steps[0]) && Run(Apply(s, steps[0]), steps[1..], s')
  }

  // ----- invariant ---------------------------------------------------------

  /** Entries `w ..` are in their slots. */
  ghost predicate Stored(evq: seq<Event>, written: seq<Event>, w: nat)
    requires |evq| > 0
    decreases if w < |written| then |written| - w else 0
  {
    w >= |written| || (evq[Slot(w, |evq|)] == written[w] && Stored(evq, written, w + 1))
  }

  /** The entries the outcomes put into the queue. */
  function Entries(log: seq<Outcome>): seq<Event> {
    if log == [] then []
    else
      var last := |log| - 1;
      Entries(log[..last]) +
      match log[last]
      case Accepted(ev) => [ev]
      case Marked(ev) => [Entry(ev, true)]
      case Refused(_) => []
  }

  /** Every refusal comes right after a marker or another refusal: no event is lost unannounced. */
  ghost predicate LossAnnounced(log: seq<Outcome>) {
    log == [] ||
    (var last := |log| - 1;
     && (log[last].Refused? ==> last > 0 && !log[last - 1].Accepted?)
     && LossAnnounced(log[..last]))
  }

  ghost predicate ProducerOk(s: State) {
    match s.p
    case PIdle => true
    case PCheckNear(_) => |s.written| + 1 < |s.delivered| + s.n
    case PWrite(_, m) =>
      |s.written| + 1 < |s.delivered| + s.n && (!m ==> |s.written| + 2 < |s.delivered| + s.n)
    case PAdvance(ev, m) =>
      && |s.written| + 1 < |s.delivered| + s.n && (!m ==> |s.written| + 2 < |s.delivered| + s.n)
      && s.head < |s.evq| && s.evq[s.head] == Entry(ev, m)
  }

  ghost predicate ConsumerOk(s: State) {
    match s.c
    case CIdle => true
    case CCopy => |s.delivered| < |s.written|
    case CAdvance(ev) => |s.delivered| < |s.written| && ev == s.written[|s.delivered|]
  }

  ghost predicate Inv(s: State) {
    && Shape(s)
    && |s.delivered| <= |s.written| < |s.delivered| + s.n
    && s.head == Slot(|s.written|, s.n) && s.tail == Slot(|s.delivered|, s.n)
    && s.delivered == s.written[..|s.delivered|]
    && Stored(s.evq, s.written, |s.delivered|)
    && ProducerOk(s) && ConsumerOk(s)
    && s.written == Entries(s.log) && LossAnnounced(s.log)
    && (|s.written| + 1 == |s.delivered| + s.n ==> s.log != [] && !s.log[|s.log| - 1].Accepted?)
  }

  // ----- proofs ------------------------------------------------------------

  lemma {:induction false} StoredWrite(evq: seq<Event>, written: seq<Event>, w: nat, ev: Event)
    requires |evq| > 0 && Stored(evq, written, w)
    requires w <= |written| < w + |evq|
    ensures Stored(evq[Slot(|written|, |evq|) := ev], written, w)
    decreases |written| - w
  {
    if w < |written| {
      if Slot(w, |evq|) == Slot(|written|, |evq|) {
        SlotInjective(w, |written|, |evq|);
      }
      StoredWrite(evq, written, w + 1, ev);
    }
  }

  lemma {:induction false} StoredAdd(evq: seq<Event>, written: seq<Event>, w: nat, ev: Event)
    requires |evq| > 0 && Stored(evq, written, w) && w <= |written|
    requires evq[Slot(|written|, |evq|)] == ev
    ensures Stored(evq, written + [ev], w)
    decreases |written| - w
  {
    if w < |written| {
      StoredAdd(evq, written, w + 1, ev);
    }
  }

  lemma NextTwice(a: nat, n: nat)
    requires n >= 3
    ensures Next2(Slot(a, n), n) == Slot(a + 2, n)
  {
    SlotNext(a, n);
    SlotNext(a + 1, n);
  }

  lemma LogAdd(log: seq<Outcome>, o: Outcome)
    requires LossAnnounced(log) && (o.Refused? ==> log != [] && !log[|log| - 1].Accepted?)
    ensures LossAnnounced(log + [o])
    ensures Entries(log + [o]) == Entries(log) +
            match o
            case Accepted(ev) => [ev]
            case Marked(ev) => [Entry(ev, true)]
            case Refused(_) => []
  {
    assert (log + [o])[..|log|] == log;
  }

  /** A refusal for fullness really means n - 1 unread entries. */
  lemma SubmitKeepsInv(s: State, ev: Event)
    requires Inv(s) && s.p == PIdle
    ensures Inv(AfterSubmit(s, ev))
  {
    SlotNext(|s.written|, s.n);
    if Next(s.head, s.n) == s.tail {
      if |s.written| + 1 < |s.delivered| + s.n {
        SlotInjective(|s.delivered|, |s.written| + 1, s.n);
      }
      LogAdd(s.log, Refused(ev));
      assert Entries(s.log) + [] == Entries(s.log);
    }
  }

  lemma CheckNearKeepsInv(s: State)
    requires Inv(s) && s.p.PCheckNear?
    ensures Inv(AfterPStep(s))
  {
    NextTwice(|s.written|, s.n);
    if |s.written| + 2 == |s.delivered| + s.n {
      assert Slot(|s.delivered| + s.n, s.n) == Slot(|s.delivered|, s.n);
    }
  }

  lemma WriteKeepsInv(s: State)
    requires Inv(s) && s.p.PWrite?
    ensures Inv(AfterPStep(s))
  {
    StoredWrite(s.evq, s.written, |s.delivered|, Entry(s.p.ev, s.p.marked));
  }

  lemma AdvanceKeepsInv(s: State)
    requires Inv(s) && s.p.PAdvance?
    ensures Inv(AfterPStep(s))
  {
    var e := Entry(s.p.ev, s.p.marked);
    SlotNext(|s.written|, s.n);
    StoredAdd(s.evq, s.written, |s.delivered|, e);
    LogAdd(s.log, if s.p.marked then Marked(s.p.ev) else Accepted(s.p.ev));
    assert (s.written + [e])[..|s.delivered|] == s.written[..|s.delivered|];
  }

  lemma CStepKeepsInv(s: State)
    requires Inv(s)
    ensures Inv(AfterCStep(s))
  {
    match s.c
    case CIdle => EmptyExact(|s.written|, |s.delivered|, s.n);
    case CCopy =>
    case CAdvance(ev) =>
      SlotNext(|s.delivered|, s.n);
      assert s.written[..|s.delivered| + 1] == s.written[..|s.delivered|] + [ev];
  }

  lemma StepKeepsInv(s: State, step: Step)
    requires Inv(s) && Enabled(s, step)
    ensures Inv(Apply(s, step))
  {
    match step
    case Submit(ev) => SubmitKeepsInv(s, ev);
    case CStep => CStepKeepsInv(s);
    case PStep =>
      match s.p
      case PIdle =>
      case PCheckNear(_) => CheckNearKeepsInv(s);
      case PWrite(_, _) => WriteKeepsInv(s);
      case PAdvance(_, _) => AdvanceKeepsInv(s);
  }

  lemma {:induction false} RunKeepsInv(s: State, steps: seq<Step>, s': State)
    requires Inv(s) && Run(s, steps, s')
    ensures Inv(s')
    decreases |steps|
  {
    if steps != [] {
      StepKeepsInv(s, steps[0]);
      RunKeepsInv(Apply(s, steps[0]), steps[1..], s');
    }
  }

  /**
    Main result, for every interleaving: what the reader has received is a
    prefix of what the accepted and marked events put into the queue, in order
    and unmodified; the rest is still in its slots; and every refused event
    comes right after a marker or another refused one.
   */
  lemma EveryInterleaving(evq: seq<Event>, steps: seq<Step>, s': State)
    requires |evq| == EVENT_QUEUE_LENGTH
    requires Run(Initial(EVENT_QUEUE_LENGTH, evq), steps, s')
    ensures s'.delivered <= Entries(s'.log)
    ensures |s'.evq| > 0 && Stored(s'.evq, Entries(s'.log), |s'.delivered|)
    ensures LossAnnounced(s'.log)
    ensures |Entries(s'.log)| - |s'.delivered| < s'.n
  {
    RunKeepsInv(Initial(EVENT_QUEUE_LENGTH, evq), steps, s');
  }

  // ----- delivery ------------------------------------------------------------

  /** The reader left alone until it finds the queue empty. */
  function Drained(s: State, k: nat): State
    requires s.head < |s.evq| && s.tail < |s.evq| && s.n == |s.evq|
    decreases k
  {
    if k == 0 then s else
      var s1 := AfterCStep(s);
      var s2 := AfterCStep(s1);
      Drained(AfterCStep(s2), k - 1)
  }

  /** Left alone, the reader delivers everything that was written. */
  lemma {:induction false} ReaderDeliversAll(s: State, k: nat)
    requires Inv(s) && s.c == CIdle && k == |s.written| - |s.delivered|
    ensures Drained(s, k).delivered == Entries(s.log)
    decreases k
  {
    if k == 0 {
      assert s.written[..|s.delivered|] == s.written;
    } else {
      EmptyExact(|s.written|, |s.delivered|, s.n);
      var s1 := AfterCStep(s);
      CStepKeepsInv(s);
      var s2 := AfterCStep(s1);
      CStepKeepsInv(s1);
      CStepKeepsInv(s2);
      ReaderDeliversAll(AfterCStep(s2), k - 1);
    }
  }

  // ----- what becomes of an event ------------------------------------------------

  function Unread(s: State): int {
    |s.written| - |s.delivered|
  }

  /** An event is refused if and only if n - 1 entries are unread; otherwise its handling goes on. */
  lemma RefusedIff(s: State, ev: Event)
    requires Inv(s) && s.p == PIdle
    ensures AfterSubmit(s, ev) ==
            if Unread(s) == s.n - 1 then s.(log := s.log + [Refused(ev)]) else s.(p := PCheckNear(ev))
  {
    SlotNext(|s.written|, s.n);
    if Unread(s) == s.n - 1 {
      assert Slot(|s.delivered| + s.n, s.n) == Slot(|s.delivered|, s.n);
    } else if Next(s.head, s.n) == s.tail {
      SlotInjective(|s.delivered|, |s.written| + 1, s.n);
    }
  }

  /** Its entry is turned into a marker if and only if n - 2 entries are unread at the test. */
  lemma MarkedIff(s: State)
    requires Inv(s) && s.p.PCheckNear?
    ensures AfterPStep(s) == s.(p := PWrite(s.p.ev, Unread(s) == s.n - 2))
  {
    NextTwice(|s.written|, s.n);
    if Unread(s) == s.n - 2 {
      assert Slot(|s.delivered| + s.n, s.n) == Slot(|s.delivered|, s.n);
    } else if Next2(s.head, s.n) == s.tail {
      SlotInjective(|s.delivered|, |s.written| + 2, s.n);
    }
  }

  lemma {:induction false} NewestIsMarker(log: seq<Outcome>)
    requires LossAnnounced(log) && log != [] && !log[|log| - 1].Accepted?
    ensures Entries(log) != [] && Entries(log)[|Entries(log)| - 1].evtype == EV_QFULL
    decreases |log|
  {
    if log[|log| - 1].Refused? {
      NewestIsMarker(log[..|log| - 1]);
    }
  }

  /** So the reader can tell: whenever an event is refused, the newest entry in the queue is a QFULL marker. */
  lemma RefusalFollowsMarker(s: State, ev: Event)
    requires Inv(s) && s.p == PIdle && AfterSubmit(s, ev).log == s.log + [Refused(ev)]
    ensures s.written != [] && s.written[|s.written| - 1].evtype == EV_QFULL
    ensures s.evq[Slot(|s.written| - 1, s.n)] == s.written[|s.written| - 1]
  {
    RefusedIff(s, ev);
    assert |s.log + [Refused(ev)]| != |s.log|;
    NewestIsMarker(s.log);
    StoredLast(s.evq, s.written, |s.delivered|);
  }

  lemma {:induction false} StoredLast(evq: seq<Event>, written: seq<Event>, w: nat)
    requires |evq| > 0 && w < |written| && Stored(evq, written, w)
    ensures evq[Slot(|written| - 1, |evq|)] == written[|written| - 1]
    decreases |written| - w
  {
    if w + 1 < |written| {
      StoredLast(evq, written, w + 1);
    }
  }

  function Fresh(step: Step): seq<Event> {
    if step.Submit? then [step.ev] else []
  }

  function Submitted(steps: seq<Step>): seq<Event> {
    if steps == [] then [] else Fresh(steps[0]) + Submitted(steps[1..])
  }

  function Pending(p: Producer): seq<Event> {
    if p == PIdle then [] else [p.ev]
  }

  /** The events the outcomes are about. */
  function Handled(log: seq<Outcome>): seq<Event> {
    if log == [] then []
    else
      var last := |log| - 1;
      Handled(log[..last]) + [log[last].ev]
  }

  lemma HandledAdd(log: seq<Outcome>, o: Outcome)
    ensures Handled(log + [o]) == Handled(log) + [o.ev]
  {
    assert (log + [o])[..|log|] == log;
  }

  /** The events that have an outcome, and the one being handled. */
  function Account(s: State): seq<Event> {
    Handled(s.log) + Pending(s.p)
  }

  lemma StepAccounts(s: State, step: Step)
    requires Shape(s) && Enabled(s, step)
    ensures Account(Apply(s, step)) == Account(s) + Fresh(step)
  {
    match step
    case Submit(ev) => HandledAdd(s.log, Refused(ev));
    case CStep =>
    case PStep =>
      if s.p.PAdvance? {
        HandledAdd(s.log, if s.p.marked then Marked(s.p.ev) else Accepted(s.p.ev));
      }
  }

  lemma Regroup(a: seq<Event>, b: seq<Event>, c: seq<Event>)
    ensures (a + b) + c == a + (b + c)
  {
  }

  /** Every event handed over has exactly one outcome, in order, but for the one being handled. */
  lemma {:induction false} EveryEventHandled(s: State, steps: seq<Step>, s': State)
    requires Run(s, steps, s')
    ensures Account(s') == Account(s) + Submitted(steps)
    decreases |steps|
  {
    if steps != [] {
      StepAccounts(s, steps[0]);
      EveryEventHandled(Apply(s, steps[0]), steps[1..], s');
      Regroup(Account(s), Fresh(steps[0]), Submitted(steps[1..]));
    }
  }

  /** Whenever an event is handed over, fewer than n - 2 entries are unread. */
  ghost predicate Roomy(s: State, steps: seq<Step>)
    decreases |steps|
  {
    steps == [] ||
    (&& Shape(s) && Enabled(s, steps[0])
     && (steps[0].Submit? ==> Unread(s) < s.n - 2)
     && Roomy(Apply(s, steps[0]), steps[1..]))
  }

  ghost predicate AllAccepted(log: seq<Outcome>) {
    log == [] || (log[|log| - 1].Accepted? && AllAccepted(log[..|log| - 1]))
  }

  /** No event so far was marked or refused, and the one being handled will not be. */
  ghost predicate Calm(s: State) {
    && AllAccepted(s.log)
    && match s.p
       case PIdle => true
       case PCheckNear(_) => Unread(s) < s.n - 2
       case PWrite(_, m) => !m
       case PAdvance(_, m) => !m
  }

  lemma CalmStep(s: State, step: Step)
    requires Inv(s) && Calm(s) && Enabled(s, step) && (step.Submit? ==> Unread(s) < s.n - 2)
    ensures Calm(Apply(s, step))
  {
    match step
    case Submit(ev) => RefusedIff(s, ev);
    case CStep =>
    case PStep =>
      if s.p.PCheckNear? {
        MarkedIff(s);
      } else if s.p.PAdvance? {
        assert (s.log + [Accepted(s.p.ev)])[..|s.log|] == s.log;
      }
  }

  lemma {:induction false} CalmRun(s: State, steps: seq<Step>, s': State)
    requires Inv(s) && Calm(s) && Run(s, steps, s') && Roomy(s, steps)
    ensures Calm(s')
    decreases |steps|
  {
    if steps != [] {
      StepKeepsInv(s, steps[0]);
      CalmStep(s, steps[0]);
      CalmRun(Apply(s, steps[0]), steps[1..], s');
    }
  }

  lemma {:induction false} AcceptedUnchanged(log: seq<Outcome>)
    requires AllAccepted(log)
    ensures Entries(log) == Handled(log)
    decreases |log|
  {
    if log != [] {
      AcceptedUnchanged(log[..|log| - 1]);
    }
  }

  /**
    As long as there is room when events are handed over, nothing is marked or
    refused: what goes into the queue is exactly what was handed over, in order.
   */
  lemma RoomyRunAcceptsAll(evq: seq<Event>, steps: seq<Step>, s': State)
    requires |evq| == EVENT_QUEUE_LENGTH
    requires Run(Initial(EVENT_QUEUE_LENGTH, evq), steps, s') && Roomy(Initial(EVENT_QUEUE_LENGTH, evq), steps)
    ensures AllAccepted(s'.log)
    ensures Entries(s'.log) + Pending(s'.p) == Submitted(steps)
  {
    var s := Initial(EVENT_QUEUE_LENGTH, evq);
    assert Inv(s);
    CalmRun(s, steps, s');
    EveryEventHandled(s, steps, s');
    AcceptedUnchanged(s'.log);
  }
}

/**
  A transmit queue together with its completion queue: ionic_start_xmit after
  its space check, the device, and ionic_tx_cq_service.  Every method keeps
  both the books of the queue and the completion protocol.
 */
module TxCompletion {
  import opened RingIndex
  import opened TxBooks
  import opened TxQueue
  import CR = CompletionRing

  /** struct ionic_cq, with the device's private indices beside it. */
  class CompletionQueue {
    const n: nat
    var tail: nat
    var doneColor: bool
    var base: seq<CR.Comp>
    var devTail: nat
    var devCq: nat
    var devColor: bool
    ghost var upTo: seq<nat>
    ghost var read: nat

    /** ionic_cq_init, memory zeroed */
    constructor (n: nat)
      ensures this.n == n && upTo == [] && read == 0
      ensures tail == 0 && doneColor && base == seq(n, _ => CR.Comp(0, 0))
      ensures devTail == 0 && devCq == 0 && devColor
    {
      this.n := n;
      tail, doneColor, base := 0, true, seq(n, _ => CR.Comp(0, 0));
      devTail, devCq, devColor := 0, 0, true;
      upTo, read := [], 0;
    }

    /** What the device does to shared memory and to its own indices. */
    method WriteCompletion(k: nat, low: bv8)
      requires devCq < |base| == n && k >= 1
      modifies this`base, this`devTail, this`devColor, this`devCq
      ensures var comp := CR.Comp(CR.Advance(old(devTail), k - 1, n), CR.ColorByte(old(devColor), low));
              base == old(base)[old(devCq) := comp]
      ensures devTail == CR.Advance(old(devTail), k, n)
      ensures devCq == Next(old(devCq), n)
      ensures devColor == if old(devCq) + 1 == n then !old(devColor) else old(devColor)
    {
      base := base[devCq := CR.Comp(CR.Advance(devTail, k - 1, n), CR.ColorByte(devColor, low))];
      devTail := CR.Advance(devTail, k, n);
      devColor := if devCq + 1 == n then !devColor else devColor;
      devCq := Next(devCq, n);
    }

    /** The driver moves past a completion it has taken, flipping its colour at the end of the ring. */
    method Consume()
      requires tail < n
      modifies this`tail, this`doneColor, this`read
      ensures tail == Next(old(tail), n) && read == old(read) + 1
      ensures doneColor == if old(tail) + 1 == n then !old(doneColor) else old(doneColor)
    {
      if tail == n - 1 {
        doneColor := !doneColor;
      }
      tail := Next(tail, n);
      read := read + 1;
    }
  }

  ghost function View(q: Queue, cq: CompletionQueue): CR.State
    reads q, cq
  {
    CR.State(q.n, q.head, q.tail, cq.tail, cq.doneColor, cq.base, cq.devTail, cq.devCq, cq.devColor)
  }

  ghost function Hist(q: Queue, cq: CompletionQueue): CR.History
    reads q, cq
  {
    CR.History(q.posted, cq.upTo, cq.read)
  }

  /** The protocol invariant holds and the queue has cleaned exactly what the taken completions cover. */
  ghost predicate InStep(q: Queue, cq: CompletionQueue)
    reads q, cq
  {
    && q.n == cq.n
    && CR.Inv(View(q, cq), Hist(q, cq))
    && CR.Cleaned(Hist(q, cq)) == q.cleaned
  }

  method Create(n: nat) returns (q: Queue, cq: CompletionQueue)
    requires RingSize(n)
    ensures fresh(q) && fresh(cq)
    ensures q.Valid() && InStep(q, cq) && q.n == n
  {
    q := new Queue(n);
    cq := new CompletionQueue(n);
    CR.SanitizedInv(n);
    assert View(q, cq) == CR.Sanitized(n);
  }

  /** The protocol only sees how many descriptors were posted. */
  lemma PostedInStep(q: Queue, cq: CompletionQueue, s: CR.State, h: CR.History)
    requires q.Sound() && CR.Inv(s, h) && CR.Cleaned(h) == q.cleaned && q.n == cq.n == s.n
    requires h.posted <= q.posted < q.cleaned + q.n && Hist(q, cq) == h.(posted := q.posted)
    requires View(q, cq) == s.(head := q.head)
    ensures InStep(q, cq)
  {
    CR.PostsKeepInv(s, h, q.posted - h.posted);
  }

  /** ionic_start_xmit once ionic_maybe_stop_tx has granted one descriptor. */
  method Send(q: Queue, cq: CompletionQueue, skb: Skb, results: seq<MapResult>) returns (ok: bool)
    requires q.Valid() && InStep(q, cq)
    requires SkbOk(skb) && |results| == |skb.bufLens|
    requires HasSpace(q.head, q.tail, q.n, 1)
    modifies q`info, q`head, q`posted, q`books, q`sentBytes
    ensures q.Valid() && InStep(q, cq)
    ensures ok <==> AllUsable(results)
    ensures q.posted == old(q.posted) + (if ok then 1 else 0)
  {
    ghost var s, h := View(q, cq), Hist(q, cq);
    assert h.posted + 1 < CR.Cleaned(h) + s.n by {
      GrantedSpaceKeepsGap(q.posted, q.cleaned, q.n, 1);
    }
    ok := q.Tx(skb, results);
    PostedInStep(q, cq, s, h);
  }

  /** ionic_start_xmit for a GSO packet granted its `k` descriptors. */
  method SendGso(q: Queue, cq: CompletionQueue, skb: Skb, results: seq<MapResult>, csumErr: bool, k: nat)
    returns (ok: bool)
    requires q.Valid() && InStep(q, cq)
    requires SkbOk(skb) && |results| == |skb.bufLens|
    requires k >= 1 && HasSpace(q.head, q.tail, q.n, k)
    modifies q`info, q`head, q`posted, q`books, q`sentBytes
    ensures q.Valid() && InStep(q, cq)
    ensures ok <==> AllUsable(results) && !csumErr
    ensures q.posted == old(q.posted) + (if ok then k else 0)
  {
    ghost var s, h := View(q, cq), Hist(q, cq);
    assert h.posted + k < CR.Cleaned(h) + s.n by {
      GrantedSpaceKeepsGap(q.posted, q.cleaned, q.n, k);
    }
    ok := q.Tso(skb, results, csumErr, k);
    PostedInStep(q, cq, s, h);
  }

  /** The device completes `k` posted descriptors with one completion. */
  method DeviceComplete(q: Queue, cq: CompletionQueue, k: nat, low: bv8)
    requires InStep(q, cq)
    requires CR.Enabled(View(q, cq), CR.Complete(k, low))
    modifies cq
    ensures InStep(q, cq)
    ensures cq.upTo == old(cq.upTo) + [CR.Completed(old(Hist(q, cq))) + k] && cq.read == old(cq.read)
  {
    ghost var s, h := View(q, cq), Hist(q, cq);
    CR.CompleteKeepsInv(s, h, k, low);
    cq.WriteCompletion(k, low);
    cq.upTo := cq.upTo + [CR.Completed(h) + k];
    assert View(q, cq) == CR.AfterComplete(s, k, low);
    assert Hist(q, cq) == CR.Record(h, CR.Complete(k, low), false);
  }

  /** ionic_tx_service: take the completion at the tail if its colour matches and clean what it covers. */
  method TxService(q: Queue, cq: CompletionQueue) returns (ok: bool, bytes: nat)
    requires q.Sound() && InStep(q, cq)
    modifies q`info, q`tail, q`cleaned, q`books
    ensures q.Sound()
    ensures ok <==> cq.read < |cq.upTo|
    ensures ok ==> q.cleaned == cq.upTo[cq.read]
    ensures ok ==> q.tail == Next(cq.base[cq.tail].index, q.n)
    ensures !ok ==> q.cleaned == old(q.cleaned) && q.tail == old(q.tail) && bytes == 0
    ensures q.books.entered == old(q.books).entered && q.books.leaked == old(q.books).leaked
    ensures Total(q.books.consumed) == Total(old(q.books).consumed) + bytes
  {
    bytes := 0;
    CR.ColorIffFresh(View(q, cq), Hist(q, cq));
    ok := CR.ColorMatch(cq.base[cq.tail].color, cq.doneColor);
    if ok {
      CR.FreshCompletion(View(q, cq), Hist(q, cq));
      ghost var target := cq.upTo[cq.read];
      SlotNext(target - 1, q.n);
      bytes := q.CleanThrough(cq.base[cq.tail].index, target);
    }
  }

  /** One turn of the loop in ionic_tx_cq_service: a taken completion moves the completion index on. */
  method ServiceOne(q: Queue, cq: CompletionQueue) returns (ok: bool, bytes: nat)
    requires q.Sound() && InStep(q, cq)
    modifies q`info, q`tail, q`cleaned, q`books, cq`tail, cq`doneColor, cq`read
    ensures q.Sound() && InStep(q, cq)
    ensures ok <==> old(cq.read) < |cq.upTo|
    ensures cq.read == old(cq.read) + (if ok then 1 else 0)
    ensures q.books.entered == old(q.books).entered && q.books.leaked == old(q.books).leaked
    ensures Total(q.books.consumed) == Total(old(q.books).consumed) + bytes
  {
    ghost var s, h := View(q, cq), Hist(q, cq);
    ok, bytes := TxService(q, cq);
    if ok {
      cq.Consume();
    }
    ServicedInStep(q, cq, s, h, ok);
  }

  lemma ServicedInStep(q: Queue, cq: CompletionQueue, s: CR.State, h: CR.History, taken: bool)
    requires CR.Inv(s, h) && q.n == cq.n
    requires taken <==> h.read < |h.upTo|
    requires q.cleaned == if taken then h.upTo[h.read] else CR.Cleaned(h)
    requires taken ==> View(q, cq) == CR.AfterTaken(s) && Hist(q, cq) == h.(read := h.read + 1)
    requires !taken ==> View(q, cq) == s && Hist(q, cq) == h
    ensures InStep(q, cq)
  {
    CR.ColorIffFresh(s, h);
    if taken {
      CR.ServiceKeepsInv(s, h);
    }
  }

  /** The loop of ionic_tx_cq_service. */
  method ServiceLoop(q: Queue, cq: CompletionQueue, workToDo: nat) returns (workDone: nat, bytes: nat)
    requires q.Sound() && InStep(q, cq)
    modifies q`info, q`tail, q`cleaned, q`books, cq`tail, cq`doneColor, cq`read
    ensures q.Sound() && InStep(q, cq)
    ensures workDone == if workToDo <= |cq.upTo| - old(cq.read) then workToDo else |cq.upTo| - old(cq.read)
    ensures cq.read == old(cq.read) + workDone
    ensures q.books.entered == old(q.books).entered && q.books.leaked == old(q.books).leaked
    ensures Total(q.books.consumed) == Total(old(q.books).consumed) + bytes
  {
    workDone, bytes := 0, 0;
    var ok := true;
    while ok && workDone < workToDo
      invariant q.Sound() && InStep(q, cq)
      invariant workDone <= workToDo && cq.read == old(cq.read) + workDone
      invariant ok || cq.read == |cq.upTo|
      invariant q.books.entered == old(q.books).entered && q.books.leaked == old(q.books).leaked
      invariant Total(q.books.consumed) == Total(old(q.books).consumed) + bytes
      decreases ok, workToDo - workDone
    {
      var b: nat;
      ok, b := ServiceOne(q, cq);
      bytes := bytes + b;
      workDone := if ok then workDone + 1 else workDone;
    }
  }

  /**
    ionic_tx_cq_service: takes exactly the unread completions, oldest first, up
    to the budget, and reports the bytes of the packets it consumed.
   */
  method TxCqService(q: Queue, cq: CompletionQueue, workToDo: nat) returns (workDone: nat)
    requires q.Valid() && InStep(q, cq)
    modifies q`info, q`tail, q`cleaned, q`books, q`doneBytes, cq`tail, cq`doneColor, cq`read
    ensures q.Valid() && InStep(q, cq)
    ensures workDone == if workToDo <= |cq.upTo| - old(cq.read) then workToDo else |cq.upTo| - old(cq.read)
    ensures cq.read == old(cq.read) + workDone
    ensures q.books.entered == old(q.books).entered && q.books.leaked == old(q.books).leaked
  {
    ghost var entered, consumed := q.books.entered, q.books.consumed;
    assert q.sentBytes == Total(entered) && q.doneBytes == Total(consumed);
    var bytes: nat;
    workDone, bytes := ServiceLoop(q, cq, workToDo);
    assert q.books.entered == entered && Total(q.books.consumed) == Total(consumed) + bytes;
    Report(q, cq, bytes);
  }

  /** netdev_tx_completed_queue */
  method Report(q: Queue, cq: CompletionQueue, bytes: nat)
    requires q.Sound() && InStep(q, cq)
    requires q.sentBytes == Total(q.books.entered) && q.doneBytes + bytes == Total(q.books.consumed)
    modifies q`doneBytes
    ensures q.Valid() && InStep(q, cq)
  {
    ghost var s, h := View(q, cq), Hist(q, cq);
    q.doneBytes := q.doneBytes + bytes;
    SameInStep(q, cq, s, h);
  }

  /** Nor does it see what the stack has been told. */
  lemma SameInStep(q: Queue, cq: CompletionQueue, s: CR.State, h: CR.History)
    requires CR.Inv(s, h) && CR.Cleaned(h) == q.cleaned && q.n == cq.n
    requires View(q, cq) == s && Hist(q, cq) == h
    ensures InStep(q, cq)
  {
  }
}

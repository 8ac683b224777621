/**
  The interrupt budget: ionic_lif_size decides how many vectors to ask for,
  ionic_intr_alloc hands them out by bitmap, and every channel layout that
  ionic_set_channels accepts afterwards has to fit, whatever the RDMA driver
  holds at the time.
 */
module LifSizing {
  import opened Common

  /** What the firmware, the kernel and the command line say. */
  datatype Ident = Ident(
    devNintrs: nat, nnqs: nat, ntxqs: nat, nrxqs: nat, rdmaEqs: nat,
    hwTimestamp: bool, kdump: bool, cpus: nat)

  datatype Sizing =
    | Sized(nnqs: nat, nrdma: nat, nxqs: nat, nintrs: nat)
    | NoSpace
    | OsError(err: int)

  const ENOSPC: int := -28

  /** Limits after the kdump and hardware-timestamp adjustments. */
  function DevNintrs(id: Ident): nat {
    if id.kdump then 2 else id.devNintrs
  }

  function QueuePairs(id: Ident): nat {
    var ntx := if id.kdump then 1 else id.ntxqs;
    var nrx := if id.kdump then 1 else id.nrxqs;
    var reserve := if id.hwTimestamp && ntx > 1 && nrx > 1 then 1 else 0;
    Min(Min(ntx - reserve, nrx - reserve), id.cpus)
  }

  /** The operating system granted exactly what was asked for. */
  predicate Granted(os: (nat, nat) -> int, attempt: nat, nintrs: nat) {
    os(attempt, nintrs) == nintrs
  }

  /** The attempts that asked for these numbers of vectors, in turn, were all refused. */
  ghost predicate AllRefused(os: (nat, nat) -> int, asked: seq<nat>) {
    asked == [] || (!Granted(os, |asked| - 1, asked[|asked| - 1]) && AllRefused(os, asked[..|asked| - 1]))
  }

  /** Queue pairs are as many as the processors and both kinds of queue allow, one pair held back for time stamps. */
  lemma QueuePairsExact(id: Ident, n: nat)
    ensures n <= QueuePairs(id) <==>
            && n <= id.cpus
            && (id.kdump ==> n <= 1)
            && (!id.kdump ==> n <= id.ntxqs && n <= id.nrxqs)
            && (!id.kdump && id.hwTimestamp && id.ntxqs > 1 && id.nrxqs > 1 ==> n < id.ntxqs && n < id.nrxqs)
  {
  }

  /** Counts of notify queues, RDMA event queues and queue pairs. */
  datatype Layout = Layout(nnqs: nat, nrdma: nat, nxqs: nat)

  function Nintrs(l: Layout): nat {
    1 + l.nxqs + l.nrdma
  }

  /** One count halved: the notify queues while there are several, then the event queues, then the queue pairs. */
  predicate Halved(a: Layout, b: Layout) {
    if a.nnqs > 1 then b == a.(nnqs := a.nnqs / 2)
    else if a.nrdma > 1 then b == a.(nrdma := a.nrdma / 2)
    else a.nxqs > 1 && b == a.(nxqs := a.nxqs / 2)
  }

  ghost predicate CutBack(tried: seq<Layout>) {
    |tried| <= 1 || (Halved(tried[|tried| - 2], tried[|tried| - 1]) && CutBack(tried[..|tried| - 1]))
  }

  /** The operating system is asked about the layouts within the device limit, in turn. */
  ghost function Asked(tried: seq<Layout>, limit: nat): seq<nat> {
    if tried == [] then []
    else
      var last := tried[|tried| - 1];
      Asked(tried[..|tried| - 1], limit) + if Nintrs(last) <= limit then [Nintrs(last)] else []
  }

  /** One vector for the admin queue, and one for each kind of queue there is any of. */
  function LeastNintrs(id: Ident): nat {
    1 + Min(QueuePairs(id), 1) + Min(Min(id.rdmaEqs, id.cpus), 1)
  }

  /** The layout to begin with. */
  function Ideal(id: Ident): Layout {
    Layout(if id.kdump then 0 else id.nnqs, Min(id.rdmaEqs, id.cpus), QueuePairs(id))
  }

  /** Every layout tried, and the one to try next, is the ideal one or halved from the one before. */
  ghost predicate Trying(id: Ident, tried: seq<Layout>, l: Layout) {
    && CutBack(tried)
    && (if tried == [] then l == Ideal(id) else tried[0] == Ideal(id) && Halved(tried[|tried| - 1], l))
  }

  lemma TryNext(id: Ident, tried: seq<Layout>, l: Layout, limit: nat)
    requires Trying(id, tried, l)
    ensures CutBack(tried + [l]) && (tried + [l])[0] == Ideal(id)
    ensures Asked(tried + [l], limit) == Asked(tried, limit) + if Nintrs(l) <= limit then [Nintrs(l)] else []
  {
    assert (tried + [l])[..|tried|] == tried;
  }

  /** Cutting back never takes the last of anything. */
  ghost predicate SomeOfEach(id: Ident, l: Layout) {
    && l.nxqs <= QueuePairs(id) && l.nrdma <= Min(id.rdmaEqs, id.cpus)
    && (l.nxqs == 0 <==> QueuePairs(id) == 0) && (l.nrdma == 0 <==> Min(id.rdmaEqs, id.cpus) == 0)
  }

  lemma AtLeast(id: Ident, l: Layout)
    requires SomeOfEach(id, l)
    ensures Nintrs(l) >= LeastNintrs(id)
    ensures l.nxqs <= 1 && l.nrdma <= 1 ==> Nintrs(l) == LeastNintrs(id)
  {
  }

  /** `try_fewer`: cut back one count, if any is left to cut. */
  method TryFewer(l: Layout) returns (more: bool, next: Layout)
    ensures more ==> Halved(l, next) && next.nnqs + next.nrdma + next.nxqs < l.nnqs + l.nrdma + l.nxqs
    ensures !more ==> l.nnqs <= 1 && l.nrdma <= 1 && l.nxqs <= 1
  {
    if l.nnqs > 1 {
      return true, l.(nnqs := l.nnqs / 2);
    }
    if l.nrdma > 1 {
      return true, l.(nrdma := l.nrdma / 2);
    }
    if l.nxqs > 1 {
      return true, l.(nxqs := l.nxqs / 2);
    }
    return false, l;
  }

  /**
    ionic_lif_size; `os(a, k)` is what asking for k vectors returns on the a-th
    attempt.  The loop ends; on success every queue pair and event queue has a
    vector of its own within the device limit; it gives up only when even one
    of each is refused.
   */
  method LifSize(id: Ident, os: (nat, nat) -> int)
    returns (r: Sizing, ghost tried: seq<Layout>, ghost asked: seq<nat>)
    ensures CutBack(tried) && asked == Asked(tried, DevNintrs(id)) && tried != [] && tried[0] == Ideal(id)
    ensures AllRefused(os, if r == NoSpace || asked == [] then asked else asked[..|asked| - 1])
    ensures r.Sized? ==> tried[|tried| - 1] == Layout(r.nnqs, r.nrdma, r.nxqs) && r.nintrs == 1 + r.nxqs + r.nrdma
    ensures r.Sized? ==> r.nintrs <= DevNintrs(id) && SomeOfEach(id, tried[|tried| - 1])
    ensures r.Sized? ==> asked != [] && asked[|asked| - 1] == r.nintrs && Granted(os, |asked| - 1, r.nintrs)
    ensures r.OsError? ==> asked != [] && r.err == os(|asked| - 1, asked[|asked| - 1]) < 0 && r.err != ENOSPC
    ensures r == NoSpace ==> Nintrs(tried[|tried| - 1]) == LeastNintrs(id)
    ensures r == NoSpace && LeastNintrs(id) <= DevNintrs(id) ==> asked != [] && asked[|asked| - 1] == LeastNintrs(id)
    ensures LeastNintrs(id) > DevNintrs(id) ==> r == NoSpace
  {
    var devNintrs := DevNintrs(id);
    var l := Ideal(id);
    var attempt: nat := 0;
    tried, asked := [], [];
    while true
      invariant attempt == |asked| && AllRefused(os, asked) && asked == Asked(tried, devNintrs)
      invariant Trying(id, tried, l) && SomeOfEach(id, l)
      decreases l.nnqs + l.nrdma + l.nxqs
    {
      var nintrs := 1 + l.nxqs + l.nrdma;
      TryNext(id, tried, l, devNintrs);
      AtLeast(id, l);
      tried := tried + [l];
      if nintrs <= devNintrs {
        var err := os(attempt, nintrs);
        ghost var before := asked;
        asked := asked + [nintrs];
        assert asked[..|asked| - 1] == before;
        if err == nintrs {
          return Sized(l.nnqs, l.nrdma, l.nxqs, nintrs), tried, asked;
        }
        if err < 0 && err != ENOSPC {
          return OsError(err), tried, asked;
        }
        attempt := attempt + 1;
      }
      var more, next := TryFewer(l);
      if !more {
        return NoSpace, tried, asked;
      }
      l := next;
    }
  }

  /**
    A kdump kernel is limited to two vectors, which the code calls the minimum.
    They suffice if and only if the device has no RDMA event queue: with one,
    sizing always gives up, whatever the operating system would grant.
   */
  lemma KdumpFitsIff(id: Ident)
    requires id.kdump && id.cpus >= 1
    ensures LeastNintrs(id) <= DevNintrs(id) <==> id.rdmaEqs == 0
  {
  }
}

module Interrupts {

  /** `i` is the first clear bit. */
  ghost predicate FirstZero(bits: seq<bool>, i: nat) {
    i < |bits| && !bits[i] && forall j :: 0 <= j < i ==> bits[j]
  }

  ghost predicate AllSet(bits: seq<bool>) {
    forall j :: 0 <= j < |bits| ==> bits[j]
  }

  /** ionic_intr_alloc: find_first_zero_bit and set_bit; an index equal to the size means none. */
  method IntrAlloc(bits: seq<bool>) returns (index: nat, bits': seq<bool>)
    ensures index <= |bits| == |bits'|
    ensures index < |bits| ==> FirstZero(bits, index) && bits' == bits[index := true]
    ensures index == |bits| ==> AllSet(bits) && bits' == bits
  {
    index := 0;
    while index < |bits| && bits[index]
      invariant index <= |bits| && forall j :: 0 <= j < index ==> bits[j]
    {
      index := index + 1;
    }
    bits' := if index < |bits| then bits[index := true] else bits;
  }

  /** The bitmap records exactly the vectors in `owned`, each owned once. */
  ghost predicate Exact(bits: seq<bool>, owned: multiset<nat>) {
    forall i: nat :: owned[i] == if i < |bits| && bits[i] then 1 else 0
  }

  lemma ExactAdd(bits: seq<bool>, owned: multiset<nat>, i: nat)
    requires Exact(bits, owned) && i < |bits| && !bits[i]
    ensures Exact(bits[i := true], owned + multiset{i})
  {
  }

  lemma ExactRemove(bits: seq<bool>, owned: multiset<nat>, i: nat)
    requires Exact(bits, owned) && i in owned
    ensures i < |bits| && bits[i]
    ensures Exact(bits[i := false], owned - multiset{i})
  {
  }

  /** A multiset that holds each of 0 .. n has at least n elements. */
  lemma {:induction false} Pigeonhole(owned: multiset<nat>, n: nat)
    requires forall i: nat :: i < n ==> i in owned
    ensures |owned| >= n
  {
    if n > 0 {
      var rest := owned[n - 1 := 0];
      assert owned == rest + multiset{}[n - 1 := owned[n - 1]];
      forall i: nat | i < n - 1 ensures i in rest {
        assert i in owned;
      }
      Pigeonhole(rest, n - 1);
      assert owned[n - 1] >= 1;
    }
  }

  /** With fewer vectors owned than there are, allocation finds one. */
  lemma RoomLeft(bits: seq<bool>, owned: multiset<nat>)
    requires Exact(bits, owned) && |owned| < |bits|
    ensures !AllSet(bits)
  {
    if AllSet(bits) {
      forall i: nat | i < |bits| ensures i in owned {
        assert bits[i];
        assert owned[i] == 1;
      }
      Pigeonhole(owned, |bits|);
    }
  }

  // ----- the channel layout --------------------------------------------------

  datatype Verdict = Accepted | Unchanged | Invalid

  /** ionic_set_channels: which requests it accepts, and the layout they ask for. */
  function CheckChannels(ntxqs: nat, nxqs: nat, split: bool, other: nat, rx: nat, tx: nat, combined: nat): Verdict {
    if other != 0 then Invalid
    else if rx != tx then Invalid
    else if combined != 0 && rx != 0 then Invalid
    else if combined != 0 then
      if combined > ntxqs then Invalid
      else if !split && combined == nxqs then Unchanged
      else Accepted
    else
      if rx > ntxqs / 2 then Invalid
      else if split && rx == nxqs then Unchanged
      else Accepted
  }

  /** Vectors the queue pairs of a layout need. */
  function Need(nxqs: nat, split: bool): nat {
    if split then 2 * nxqs else nxqs
  }

  /** Every accepted layout needs no more vectors than were budgeted for combined queue pairs. */
  lemma AcceptedFits(ntxqs: nat, nxqs: nat, split: bool, other: nat, rx: nat, tx: nat, combined: nat)
    requires CheckChannels(ntxqs, nxqs, split, other, rx, tx, combined) == Accepted
    ensures Need(if combined != 0 then combined else rx, combined == 0) <= ntxqs
  {
  }

  /** And exactly the well-formed requests for such a layout, other than the present one, are accepted. */
  lemma AcceptedIff(ntxqs: nat, nxqs: nat, split: bool, other: nat, rx: nat, tx: nat, combined: nat)
    ensures var n, split' := if combined != 0 then combined else rx, combined == 0;
            CheckChannels(ntxqs, nxqs, split, other, rx, tx, combined) == Accepted <==>
            && other == 0 && rx == tx && (combined == 0 || rx == 0)
            && Need(n, split') <= ntxqs && !(n == nxqs && split' == split)
  {
  }

  /** The interrupt side of a LIF. */
  class Lif {
    const ntxqs: nat      // ionic->ntxqs_per_lif
    const nrdmaEqs: nat   // ionic->nrdma_eqs_per_lif
    var bits: seq<bool>   // ionic->intrs, nintrs bits
    var admin: seq<nat>   // the admin queue's vector, once allocated
    var rx: seq<nat>      // vectors of the receive queues
    var tx: seq<nat>      // vectors of the transmit queues, when split
    var nxqs: nat
    var split: bool
    var running: bool
    var eqsAvail: nat
    ghost var rdma: multiset<nat>   // vectors the RDMA driver holds

    ghost function Owned(): multiset<nat>
      reads this
    {
      multiset(admin) + multiset(rx) + multiset(tx) + rdma
    }

    /**
      Live vectors are distinct and the bitmap says exactly which; the layout
      fits the budget and RDMA holds what its counter says it took.
     */
    ghost predicate Sound()
      reads this
    {
      && |bits| == 1 + ntxqs + nrdmaEqs
      && Exact(bits, Owned())
      && |admin| <= 1
      && Need(nxqs, split) <= ntxqs
      && eqsAvail + |rdma| == nrdmaEqs
    }

    ghost predicate Valid()
      reads this
    {
      && Sound()
      && |rx| == (if running then nxqs else 0)
      && |tx| == (if running && split then nxqs else 0)
    }

    /** A sized device before any queue exists: ionic_lif_size, then ionic_lif_alloc. */
    constructor (ntxqs: nat, nrdmaEqs: nat)
      ensures Valid() && !running && admin == [] && rdma == multiset{}
      ensures this.ntxqs == ntxqs && this.nrdmaEqs == nrdmaEqs
    {
      this.ntxqs, this.nrdmaEqs := ntxqs, nrdmaEqs;
      bits := seq(1 + ntxqs + nrdmaEqs, _ => false);
      admin, rx, tx, rdma := [], [], [], multiset{};
      nxqs, split, running, eqsAvail := ntxqs, false, false, nrdmaEqs;
    }

    /** One allocation; whenever fewer vectors are owned than exist it succeeds, with a vector nobody owns. */
    method Alloc() returns (index: nat)
      requires Exact(bits, Owned()) && |Owned()| < |bits|
      modifies this`bits
      ensures |bits| == |old(bits)| && index < |bits|
      ensures index !in Owned()
      ensures Exact(bits, Owned() + multiset{index})
    {
      RoomLeft(bits, Owned());
      var bits': seq<bool>;
      index, bits' := IntrAlloc(bits);
      ExactAdd(bits, Owned(), index);
      assert Owned()[index] == 0;
      bits := bits';
    }

    /** ionic_intr_free on a vector that is owned. */
    method Free(index: nat, ghost owned: multiset<nat>)
      requires Exact(bits, owned) && index in owned
      modifies this`bits
      ensures |bits| == |old(bits)|
      ensures Exact(bits, owned - multiset{index})
    {
      ExactRemove(bits, owned, index);
      if index < |bits| {
        bits := bits[index := false];
      }
    }

    /** The admin queue takes its vector first. */
    method AllocAdmin()
      requires Valid() && admin == []
      modifies this`bits, this`admin
      ensures Valid() && |admin| == 1
    {
      var index := Alloc();
      admin := [index];
      assert Owned() == multiset(old(admin)) + multiset(rx) + multiset(tx) + rdma + multiset{index};
    }

    method AddRx()
      requires Sound() && |rx| + |tx| < ntxqs
      modifies this`bits, this`rx
      ensures Sound() && |rx| == |old(rx)| + 1
    {
      var index := Alloc();
      rx := rx + [index];
      assert Owned() == multiset(admin) + multiset(old(rx)) + multiset(tx) + rdma + multiset{index};
    }

    method AddTx()
      requires Sound() && |rx| + |tx| < ntxqs
      modifies this`bits, this`tx
      ensures Sound() && |tx| == |old(tx)| + 1
    {
      var index := Alloc();
      tx := tx + [index];
      assert Owned() == multiset(admin) + multiset(rx) + multiset(old(tx)) + rdma + multiset{index};
    }

    /** The re-assignment loop of ionic_reconfigure_queues: no allocation in it can fail. */
    method AssignQueues()
      requires Sound() && rx == [] && tx == []
      modifies this`bits, this`rx, this`tx
      ensures Sound() && |rx| == nxqs && |tx| == if split then nxqs else 0
    {
      var i := 0;
      while i < nxqs
        invariant 0 <= i <= nxqs && Sound()
        invariant |rx| == i && |tx| == if split then i else 0
      {
        AddRx();
        if split {
          AddTx();
        }
        i := i + 1;
      }
    }

    /** ionic_txrx_alloc: transmit queues first, if they have vectors of their own, then receive queues. */
    method AllocQueues()
      requires Sound() && rx == [] && tx == []
      modifies this`bits, this`rx, this`tx
      ensures Sound() && |rx| == nxqs && |tx| == if split then nxqs else 0
    {
      if split {
        while |tx| < nxqs
          invariant Sound() && rx == [] && |tx| <= nxqs
        {
          AddTx();
        }
      }
      while |rx| < nxqs
        invariant Sound() && |rx| <= nxqs && |tx| == if split then nxqs else 0
      {
        AddRx();
      }
    }

    method DropRx()
      requires Sound() && rx != []
      modifies this`bits, this`rx
      ensures Sound() && |rx| == |old(rx)| - 1
    {
      var last := |rx| - 1;
      assert rx == rx[..last] + [rx[last]];
      ghost var owned := Owned();
      assert rx[last] in owned;
      Free(rx[last], owned);
      rx := rx[..last];
      assert Owned() == owned - multiset{old(rx)[last]};
    }

    method DropTx()
      requires Sound() && tx != []
      modifies this`bits, this`tx
      ensures Sound() && |tx| == |old(tx)| - 1
    {
      var last := |tx| - 1;
      assert tx == tx[..last] + [tx[last]];
      ghost var owned := Owned();
      assert tx[last] in owned;
      Free(tx[last], owned);
      tx := tx[..last];
      assert Owned() == owned - multiset{old(tx)[last]};
    }

    /** Clear all queue assignments. */
    method ReleaseQueues()
      requires Sound()
      modifies this`bits, this`rx, this`tx
      ensures Sound() && rx == [] && tx == []
    {
      while rx != []
        invariant Sound()
        decreases |rx|
      {
        DropRx();
      }
      while tx != []
        invariant Sound() && rx == []
        decreases |tx|
      {
        DropTx();
      }
    }

    /** ionic_open and ionic_stop, as far as vectors go. */
    method Open()
      requires Valid() && !running
      modifies this`bits, this`rx, this`tx, this`running
      ensures Valid() && running
    {
      AllocQueues();
      running := true;
    }

    method Stop()
      requires Valid()
      modifies this`bits, this`rx, this`tx, this`running
      ensures Valid() && !running
    {
      ReleaseQueues();
      running := false;
    }

    /** ionic_set_channels with ionic_reconfigure_queues: every accepted request is satisfied. */
    method SetChannels(other: nat, rxCount: nat, txCount: nat, combined: nat) returns (v: Verdict)
      requires Valid()
      modifies this`bits, this`rx, this`tx, this`nxqs, this`split
      ensures Valid()
      ensures v == CheckChannels(ntxqs, old(nxqs), old(split), other, rxCount, txCount, combined)
      ensures v == Accepted ==> nxqs == (if combined != 0 then combined else rxCount) && split == (combined == 0)
      ensures v != Accepted ==> nxqs == old(nxqs) && split == old(split) && rx == old(rx) && tx == old(tx)
    {
      v := CheckChannels(ntxqs, nxqs, split, other, rxCount, txCount, combined);
      if v == Accepted {
        AcceptedFits(ntxqs, nxqs, split, other, rxCount, txCount, combined);
        ReleaseQueues();
        nxqs, split := if combined != 0 then combined else rxCount, combined == 0;
        if running {
          AssignQueues();
        }
      }
    }

    method GrantRdma(index: nat)
      requires Exact(bits, Owned() + multiset{index}) && eqsAvail > 0
      modifies this`eqsAvail, this`rdma
      ensures Exact(bits, Owned())
      ensures eqsAvail == old(eqsAvail) - 1 && rdma == old(rdma) + multiset{index}
    {
      RegroupAdd(multiset(admin) + multiset(rx) + multiset(tx), rdma, index);
      eqsAvail := eqsAvail - 1;
      rdma := rdma + multiset{index};
    }

    /** ionic_api_get_intr; `memory` is the temporary allocation, `vector` what the bus returns for the index. */
    method RdmaGet(memory: bool, vector: int) returns (r: int)
      requires Valid()
      modifies this`bits, this`eqsAvail, this`rdma
      ensures Valid()
      ensures old(eqsAvail) > 0 && memory && vector >= 0 ==>
                r >= 0 && r !in old(Owned()) && rdma == old(rdma) + multiset{r}
      ensures old(eqsAvail) == 0 || !memory || vector < 0 ==> r < 0 && rdma == old(rdma)
    {
      if eqsAvail == 0 {
        return -28;
      }
      if !memory {
        return -28;
      }
      var index := TakeRdma(vector);
      return if vector < 0 then vector else index;
    }

    /** ionic_api_put_intr on a vector the RDMA driver holds. */
    method RdmaPut(index: nat)
      requires Valid() && index in rdma
      modifies this`bits, this`eqsAvail, this`rdma
      ensures Valid() && rdma == old(rdma) - multiset{index}
    {
      DropRdma(index);
    }

    method DropRdma(index: nat)
      requires Sound() && index in rdma
      modifies this`bits, this`eqsAvail, this`rdma
      ensures Sound() && rdma == old(rdma) - multiset{index}
    {
      ghost var owned := Owned();
      RegroupRemove(multiset(admin) + multiset(rx) + multiset(tx), rdma, index);
      Free(index, owned);
      rdma := rdma - multiset{index};
      eqsAvail := eqsAvail + 1;
      assert Owned() == owned - multiset{index};
    }

    /** Take a vector and, if the bus has none for it, give it back. */
    method TakeRdma(vector: int) returns (index: nat)
      requires Sound() && |rx| + |tx| <= ntxqs && eqsAvail > 0
      modifies this`bits, this`eqsAvail, this`rdma
      ensures Sound()
      ensures index !in old(Owned())
      ensures rdma == if vector < 0 then old(rdma) else old(rdma) + multiset{index}
    {
      index := Alloc();
      if vector < 0 {
        CancelAdd(Owned(), index);
        Free(index, Owned() + multiset{index});
      } else {
        GrantRdma(index);
      }
    }
  }

  lemma CancelAdd(a: multiset<nat>, i: nat)
    ensures (a + multiset{i}) - multiset{i} == a
  {
  }

  lemma RegroupAdd(a: multiset<nat>, r: multiset<nat>, i: nat)
    ensures (a + r) + multiset{i} == a + (r + multiset{i})
  {
  }

  lemma RegroupRemove(a: multiset<nat>, r: multiset<nat>, i: nat)
    requires i in r
    ensures (a + r) - multiset{i} == a + (r - multiset{i})
    ensures |r - multiset{i}| == |r| - 1
  {
  }
}

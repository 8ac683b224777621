/**
  Synchronising MAC filters with firmware, in sequential runs: list updates,
  ionic_rx_filter_sync and ionic_lif_rx_mode.
 */
module FilterSync {
  import opened FilterSpec

  /** The interface flags rx_mode looks at, and the mode word it sets. */
  datatype Flags = Flags(multicast: bool, broadcast: bool, promisc: bool, allmulti: bool, sniffer: bool)
  datatype Mode = Mode(unicast: bool, multicast: bool, broadcast: bool, promisc: bool, allmulti: bool, sniffer: bool)

  /** The mode word ionic_lif_rx_mode settles on. */
  function ModeFor(flags: Flags, overflow: bool): Mode {
    Mode(true, flags.multicast, flags.broadcast, flags.promisc || overflow, flags.allmulti || overflow, flags.sniffer)
  }

  // ----- what the device receives ----------------------------------------------------

  /** The device passes a frame to this address up to the driver. */
  ghost predicate Receives(mode: Mode, installed: map<nat, Mac>, m: Mac) {
    || mode.promisc
    || (Multicast(m) && mode.allmulti)
    || (m in installed.Values && if Multicast(m) then mode.multicast else mode.unicast)
  }

  predicate ReceivesBroadcast(mode: Mode) {
    mode.promisc || mode.broadcast
  }

  /** What the stack asked for: its flags, and the addresses it has listed. */
  ghost predicate AskedFor(flags: Flags, wanted: set<Mac>, m: Mac) {
    || flags.promisc
    || (Multicast(m) && flags.allmulti)
    || (m in wanted && (Multicast(m) ==> flags.multicast))
  }

  /**
    After a sync and the mode word that goes with it, the device receives exactly
    what the stack asked for, or everything if the filters overflowed.
   */
  lemma ReceivesWhatWasAsked(st: State, order: seq<Mac>, pick: map<nat, Mac> -> nat, max: nat,
                             flags: Flags, overflow: bool)
    requires Exact(st, max) && Walks(order, st.filters) && Picks(pick)
    requires Full(Sync(st, order, pick, max), max) ==> overflow
    ensures var mode, st' := ModeFor(flags, overflow), Sync(st, order, pick, max);
            && (forall m :: Receives(mode, st'.installed, m) <==> overflow || AskedFor(flags, Wanted(st.filters), m))
            && (ReceivesBroadcast(mode) <==> overflow || flags.promisc || flags.broadcast)
            && mode.sniffer == flags.sniffer
  {
    if !overflow {
      SyncInstallsExactly(st, order, pick, max);
    }
  }

  /** One turn of the delete loop, on values. */
  lemma DeleteStep(st: State, deletes: seq<nat>, ms: seq<Mac>, i: nat)
    requires i < |ms| && AllIn(st.filters, ms[i..], Old)
    ensures ms[i] in st.filters && st.filters[ms[i]].phase == Old
    ensures AllIn(Remove(st, ms[i]).filters, ms[i + 1..], Old)
    ensures RemoveAll(Remove(st, ms[i]), ms[i + 1..]) == RemoveAll(st, ms[i..])
    ensures (deletes + [st.filters[ms[i]].id]) + IdsOf(Remove(st, ms[i]).filters, ms[i + 1..])
         == deletes + IdsOf(st.filters, ms[i..])
  {
    var rest := ms[i + 1..];
    assert ms[i..][0] == ms[i] && ms[i..][1..] == rest;
    IdsWithout(st.filters, ms[i], rest);
    AllInFrame(st.filters, st.filters - {ms[i]}, rest, Old);
    assert (deletes + [st.filters[ms[i]].id]) + IdsOf(st.filters, rest)
        == deletes + ([st.filters[ms[i]].id] + IdsOf(st.filters, rest));
  }

  class Lif {
    /** max_ucast_filters, which firmware advertises */
    const max: nat
    var filters: Filters
    var nucast: nat
    var nmcast: nat
    var nvlans: nat
    var maxVlans: nat
    var rxMode: Mode
    var syncNeeded: bool
    // firmware's side
    var installed: map<nat, Mac>
    var fwMode: Mode
    /** filter ids of the delete commands posted so far */
    var deletes: seq<nat>

    ghost function Abs(): State
      reads this
    {
      State(filters, nucast, nmcast, installed)
    }

    ghost predicate Valid()
      reads this
    {
      Exact(Abs(), max) && rxMode == fwMode
    }

    /** The overflow state of ionic_lif_rx_mode: no more room for addresses, or for VLAN ids. */
    predicate Overflow()
      reads this
    {
      nucast + nmcast >= max || (maxVlans > 0 && nvlans >= maxVlans)
    }

    constructor (limit: nat)
      ensures max == limit && Valid() && filters == map[]
    {
      max := limit;
      filters, installed, deletes := map[], map[], [];
      nucast, nmcast, nvlans, maxVlans := 0, 0, 0, 0;
      syncNeeded := false;
      var none := Mode(false, false, false, false, false, false);
      rxMode, fwMode := none, none;
    }

    /** ionic_lif_list_addr */
    method ListAddr(m: Mac, add: bool) returns (found: bool)
      requires Valid()
      modifies this`filters, this`syncNeeded
      ensures Valid() && filters == FilterSpec.ListAddr(old(filters), m, add)
      ensures Wanted(filters) == if add then Wanted(old(filters)) + {m} else Wanted(old(filters)) - {m}
      ensures !found <==> !add && m !in old(filters)
      ensures syncNeeded == (found || old(syncNeeded))
    {
      ListAddrKeepsExact(Abs(), m, add, max);
      if add && m !in filters {
        filters := filters[m := Entry(New, 0)];
      } else if add {
        if filters[m].phase == Old {
          filters := filters[m := filters[m].(phase := Synced)];
        }
      } else if m in filters {
        if filters[m].phase == New {
          filters := filters - {m};
        } else if filters[m].phase == Synced {
          filters := filters[m := filters[m].(phase := Old)];
        }
      } else {
        return false;
      }
      syncNeeded := true;
      return true;
    }

    /** The command's trip to firmware, which stores an accepted filter. */
    method PostAdd(m: Mac, pick: map<nat, Mac> -> nat) returns (reply: Reply)
      modifies this`installed
      ensures reply == FirmwareReply(old(installed), pick, max)
      ensures installed == if reply.Accepted? then old(installed)[reply.id := m] else old(installed)
    {
      reply := FirmwareReply(installed, pick, max);
      if reply.Accepted? {
        installed := installed[reply.id := m];
      }
    }

    /** ionic_lif_filter_add, with no list update in between */
    method FilterAdd(m: Mac, pick: map<nat, Mac> -> nat)
      modifies this`filters, this`nucast, this`nmcast, this`installed
      ensures Abs() == AddOne(old(Abs()), m, pick, max)
    {
      if m in filters {
        if filters[m].phase == Synced {
          return;
        }
        filters := filters[m := filters[m].(phase := Synced)];
      } else {
        filters := filters[m := Entry(Synced, 0)];
      }
      var reply := Refused;
      if nucast + nmcast < max {
        reply := PostAdd(m, pick);
      }
      if reply.Refused? {
        filters := AddFinish(filters, m, Refused);
        return;
      }
      if Multicast(m) {
        nmcast := nmcast + 1;
      } else {
        nucast := nucast + 1;
      }
      filters := AddFinish(filters, m, reply);
    }

    /** ionic_lif_filter_del */
    method FilterDel(m: Mac) returns (found: bool)
      modifies this`filters, this`nucast, this`nmcast, this`installed, this`deletes
      ensures found == (m in old(filters)) && Abs() == Remove(old(Abs()), m)
      ensures deletes == if found && old(filters)[m].phase != New then old(deletes) + [old(filters)[m].id]
                         else old(deletes)
    {
      if m !in filters {
        return false;
      }
      if Multicast(m) && nmcast > 0 {
        nmcast := nmcast - 1;
      } else if !Multicast(m) && nucast > 0 {
        nucast := nucast - 1;
      }
      var f := filters[m];
      filters := filters - {m};
      if f.phase != New {
        deletes := deletes + [f.id];
        installed := installed - {f.id};
      }
      return true;
    }

    /** The collecting walk of ionic_rx_filter_sync */
    method Collect(order: seq<Mac>) returns (adds: seq<Mac>, dels: seq<Mac>)
      requires Walks(order, filters)
      ensures adds == Picked(filters, order, New) && dels == Picked(filters, order, Old)
    {
      adds, dels := [], [];
      var i := 0;
      while i < |order|
        invariant 0 <= i <= |order|
        invariant adds == Picked(filters, order[..i], New) && dels == Picked(filters, order[..i], Old)
      {
        var m := order[i];
        assert order[..i + 1][..i] == order[..i];
        if filters[m].phase == New {
          adds := [m] + adds;
        } else if filters[m].phase == Old {
          dels := [m] + dels;
        }
        i := i + 1;
      }
      assert order[..i] == order;
    }

    /** The delete loop of ionic_rx_filter_sync: one delete command for each filter. */
    method DeleteAll(ms: seq<Mac>)
      requires AllIn(filters, ms, Old)
      modifies this`filters, this`nucast, this`nmcast, this`installed, this`deletes
      ensures Abs() == RemoveAll(old(Abs()), ms)
      ensures deletes == old(deletes) + IdsOf(old(filters), ms)
    {
      var i := 0;
      assert ms[0..] == ms;
      while i < |ms|
        invariant i <= |ms| && AllIn(filters, ms[i..], Old)
        invariant RemoveAll(Abs(), ms[i..]) == RemoveAll(old(Abs()), ms)
        invariant deletes + IdsOf(filters, ms[i..]) == old(deletes) + IdsOf(old(filters), ms)
      {
        DeleteStep(Abs(), deletes, ms, i);
        var _ := FilterDel(ms[i]);
        i := i + 1;
      }
    }

    /** The add loop of ionic_rx_filter_sync */
    method AddEach(ms: seq<Mac>, pick: map<nat, Mac> -> nat)
      modifies this`filters, this`nucast, this`nmcast, this`installed
      ensures Abs() == AddAll(old(Abs()), ms, pick, max)
    {
      var i := 0;
      assert ms[0..] == ms;
      while i < |ms|
        invariant i <= |ms| && AddAll(Abs(), ms[i..], pick, max) == AddAll(old(Abs()), ms, pick, max)
      {
        assert ms[i..][0] == ms[i] && ms[i..][1..] == ms[i + 1..];
        FilterAdd(ms[i], pick);
        i := i + 1;
      }
    }

    /** ionic_rx_filter_sync; `order` is the order of the walk over the by_id lists */
    method SyncFilters(order: seq<Mac>, pick: map<nat, Mac> -> nat)
      requires Valid() && Walks(order, filters) && Picks(pick)
      modifies this`filters, this`nucast, this`nmcast, this`installed, this`deletes, this`syncNeeded
      ensures Valid() && Abs() == Sync(old(Abs()), order, pick, max)
      ensures deletes == old(deletes) + IdsOf(old(filters), Picked(old(filters), order, Old))
      ensures !syncNeeded
    {
      SyncSettles(Abs(), order, pick, max);
      SyncOnce(order, pick);
    }

    method SyncOnce(order: seq<Mac>, pick: map<nat, Mac> -> nat)
      requires Walks(order, filters)
      modifies this`filters, this`nucast, this`nmcast, this`installed, this`deletes, this`syncNeeded
      ensures Abs() == Sync(old(Abs()), order, pick, max)
      ensures deletes == old(deletes) + IdsOf(old(filters), Picked(old(filters), order, Old))
      ensures !syncNeeded
    {
      PickedAllIn(filters, order, Old);
      syncNeeded := false;
      var adds, dels := Collect(order);
      DeleteAll(dels);
      AddEach(adds, pick);
    }

    /**
      ionic_lif_rx_mode, firmware accepting the mode: every listed address is
      received, because its filter is installed or because the device is
      promiscuous; no OLD filter is left; the counters count firmware's filters.
     */
    method RxMode(flags: Flags, order: seq<Mac>, pick: map<nat, Mac> -> nat)
      requires Valid() && Walks(order, filters) && Picks(pick)
      modifies this
      ensures Valid() && Wanted(filters) == Wanted(old(filters))
      ensures forall m :: m in Wanted(filters) ==> fwMode.promisc || m in installed.Values
      ensures forall m :: m in filters ==> filters[m].phase != Old
      ensures nucast + nmcast == |installed| <= max
      ensures fwMode.promisc <==> flags.promisc || Overflow()
      ensures fwMode == ModeFor(flags, Overflow()) && fwMode.sniffer == flags.sniffer
      ensures forall m :: Receives(fwMode, installed, m) <==> Overflow() || AskedFor(flags, Wanted(filters), m)
      ensures ReceivesBroadcast(fwMode) <==> Overflow() || flags.promisc || flags.broadcast
    {
      ghost var st := Abs();
      SyncCovers(st, order, pick, max);
      SyncFilters(order, pick);
      ReceivesWhatWasAsked(st, order, pick, max, flags, Overflow());
      SetMode(flags);
    }

    /** The mode word for these flags, sent to firmware if it differs from the last one. */
    method SetMode(flags: Flags)
      requires rxMode == fwMode
      modifies this`rxMode, this`fwMode
      ensures rxMode == fwMode == ModeFor(flags, Overflow())
    {
      var mode := Mode(true, flags.multicast, flags.broadcast, flags.promisc, flags.allmulti, flags.sniffer);
      if nucast + nmcast >= max || (maxVlans > 0 && nvlans >= maxVlans) {
        mode := mode.(promisc := true, allmulti := true);
      } else {
        if !flags.promisc {
          mode := mode.(promisc := false);
        }
        if !flags.allmulti {
          mode := mode.(allmulti := false);
        }
      }
      if rxMode != mode {
        fwMode := mode;
        rxMode := mode;
      }
    }
  }
}

/**
  An add in flight while the stack goes on listing and unlisting addresses:
  what the two locked sections of ionic_lif_filter_add and the updates between
  them leave in the driver's books and in firmware.
 */
module FilterRace {
  import opened FilterSpec

  /** Driver and firmware after both sections of an add of m, with `ops` between them. */
  function Raced(st: State, m: Mac, ops: seq<Update>, reply: Reply): State {
    var f := AddFinish(Updated(AddBegin(st.filters, m), ops), m, reply);
    match reply
    case Refused => st.(filters := f)
    case Accepted(id) => Counted(st, m, true).(filters := f, installed := st.installed[id := m])
  }

  // ----- the books with the claimed filter set aside -----------------------------

  lemma ListAddrAside(f: Filters, m: Mac, k: Mac, add: bool)
    requires m in f && f[m].phase != New
    ensures ListAddr(f, k, add) - {m} == if k == m then f - {m} else ListAddr(f - {m}, k, add)
  {
  }

  /** The books of all filters but m. */
  ghost predicate ExactAside(st: State, f: Filters, m: Mac, max: nat) {
    Exact(st.(filters := f - {m}), max)
  }

  lemma UpdateAside(st: State, f: Filters, m: Mac, op: Update, max: nat)
    requires m in f && f[m].phase != New && ExactAside(st, f, m, max)
    ensures ExactAside(st, ListAddr(f, op.m, op.add), m, max)
  {
    ListAddrAside(f, m, op.m, op.add);
    if op.m != m {
      ListAddrKeepsExact(st.(filters := f - {m}), op.m, op.add, max);
    }
  }

  /** While m is claimed, list updates keep the books of all other filters exact. */
  lemma {:induction false} OthersStayExact(st: State, f: Filters, m: Mac, ops: seq<Update>, max: nat)
    requires m in f && f[m].phase != New && ExactAside(st, f, m, max)
    ensures ExactAside(st, Updated(f, ops), m, max)
    decreases |ops|
  {
    if ops != [] {
      UpdateAside(st, f, m, ops[0], max);
      OthersStayExact(st, ListAddr(f, ops[0].m, ops[0].add), m, ops[1..], max);
    }
  }

  /** A NEW filter does not enter the books. */
  lemma NewIsNotBooked(st: State, f: Filters, m: Mac, max: nat)
    requires m in f && f[m].phase == New
    ensures Exact(st.(filters := f), max) <==> ExactAside(st, f, m, max)
  {
    assert Live(f - {m}) == Live(f);
    NewIsNotMirrored(f, st.installed, m);
  }

  lemma NewIsNotMirrored(f: Filters, installed: map<nat, Mac>, m: Mac)
    requires m in f && f[m].phase == New
    ensures Mirrored(f, installed) <==> Mirrored(f - {m}, installed)
  {
    if Mirrored(f, installed) {
      forall id | id in installed
        ensures installed[id] != m
      {
        assert f[installed[id]].phase != New;
      }
      assert Mirrored(f - {m}, installed);
    }
    if Mirrored(f - {m}, installed) {
      forall id | id in installed
        ensures installed[id] in f && f[installed[id]].phase != New && f[installed[id]].id == id
      {
        assert installed[id] in f - {m};
      }
      forall k | k in f && f[k].phase != New
        ensures f[k].id in installed && installed[f[k].id] == k
      {
        assert k in f - {m} && (f - {m})[k] == f[k];
      }
      assert Mirrored(f, installed);
    }
  }

  /** Nor can a filter that firmware does not hold be SYNCED or OLD in exact books. */
  lemma UninstalledIsNotExact(st: State, f: Filters, m: Mac, max: nat)
    requires m in f && f[m].phase != New && ExactAside(st, f, m, max)
    ensures !Exact(st.(filters := f), max)
  {
    UninstalledIsNotMirrored(f, st.installed, m);
  }

  lemma UninstalledIsNotMirrored(f: Filters, installed: map<nat, Mac>, m: Mac)
    requires m in f && f[m].phase != New && Mirrored(f - {m}, installed)
    ensures !Mirrored(f, installed)
  {
    if f[m].id in installed {
      assert installed[f[m].id] in f - {m};
    }
  }

  /** Between the two sections, everything but the claimed filter is accounted for. */
  lemma ClaimedAside(st: State, m: Mac, ops: seq<Update>, max: nat)
    requires Exact(st, max) && m in st.filters && st.filters[m].phase == New
    ensures ExactAside(st, Updated(AddBegin(st.filters, m), ops), m, max)
  {
    NewIsNotBooked(st, st.filters, m, max);
    var f := AddBegin(st.filters, m);
    assert f - {m} == st.filters - {m};
    OthersStayExact(st, f, m, ops, max);
  }

  // ----- exactly when the books survive the race --------------------------------------

  /**
    From exact books with m NEW, whatever is listed and unlisted while the add
    is in flight, the books are exact afterwards if and only if firmware
    accepted or the last update of m was not a delete.
   */
  lemma RaceIff(st: State, m: Mac, ops: seq<Update>, reply: Reply, max: nat)
    requires Exact(st, max) && m in st.filters && st.filters[m].phase == New
    requires reply.Accepted? ==> reply.id !in st.installed && st.nucast + st.nmcast < max
    ensures Exact(Raced(st, m, ops, reply), max) <==> reply.Accepted? || !EndsDeleted(ops, m)
  {
    ClaimedAside(st, m, ops, max);
    match reply
    case Refused => RefusedRace(st, m, ops, max);
    case Accepted(id) => AcceptedRace(st, m, ops, id, max);
  }

  lemma RefusedRace(st: State, m: Mac, ops: seq<Update>, max: nat)
    requires m in st.filters && ExactAside(st, Updated(AddBegin(st.filters, m), ops), m, max)
    ensures Exact(Raced(st, m, ops, Refused), max) <==> !EndsDeleted(ops, m)
  {
    var f, g := Updated(AddBegin(st.filters, m), ops), Raced(st, m, ops, Refused).filters;
    RefusedAdd(st.filters, m, ops);
    assert g - {m} == f - {m};
    if EndsDeleted(ops, m) {
      UninstalledIsNotExact(st, g, m, max);
    } else {
      NewIsNotBooked(st, g, m, max);
    }
  }

  lemma AcceptedRace(st: State, m: Mac, ops: seq<Update>, id: nat, max: nat)
    requires m in st.filters && ExactAside(st, Updated(AddBegin(st.filters, m), ops), m, max)
    requires id !in st.installed && st.nucast + st.nmcast < max
    ensures Exact(Raced(st, m, ops, Accepted(id)), max)
  {
    var f := Updated(AddBegin(st.filters, m), ops);
    var installed := Install(st.(filters := f), m, id);
    InstallAside(st, f, m, id, max);
    AcceptedIs(st, m, ops, id);
    if EndsDeleted(ops, m) {
      ListAddrKeepsExact(installed, m, false, max);
    }
  }

  /** An accepted race is an install, followed by the delete if that was the last word. */
  lemma AcceptedIs(st: State, m: Mac, ops: seq<Update>, id: nat)
    requires m in st.filters
    ensures var installed := Install(st.(filters := Updated(AddBegin(st.filters, m), ops)), m, id);
            Raced(st, m, ops, Accepted(id)) ==
            if EndsDeleted(ops, m) then installed.(filters := ListAddr(installed.filters, m, false)) else installed
  {
    var f := Updated(AddBegin(st.filters, m), ops);
    ClaimSurvives(AddBegin(st.filters, m), m, ops);
    assert f[m := Entry(Synced, id)][m := Entry(Old, id)] == f[m := Entry(Old, id)];
  }

  /** Once firmware has accepted the filter set aside, the books are whole again. */
  lemma InstallAside(st: State, f: Filters, m: Mac, id: nat, max: nat)
    requires ExactAside(st, f, m, max) && id !in st.installed && st.nucast + st.nmcast < max
    ensures Exact(Install(st.(filters := f), m, id), max)
  {
    var aside := st.(filters := f - {m});
    InstallKeepsExact(aside, m, id, max);
    SameInstall(st, f, m, id);
  }

  lemma SameInstall(st: State, f: Filters, m: Mac, id: nat)
    ensures Install(st.(filters := f - {m}), m, id) == Install(st.(filters := f), m, id)
  {
    assert (f - {m})[m := Entry(Synced, id)] == f[m := Entry(Synced, id)];
  }

  /**
    So a delete that raced with an accepted add reaches firmware: the next sync
    starts from exact books, sends the delete for the id firmware returned, and
    leaves m installed nowhere.
   */
  lemma RacedDeleteReachesFirmware(st: State, m: Mac, ops: seq<Update>, id: nat, order: seq<Mac>,
                                   pick: map<nat, Mac> -> nat, max: nat)
    requires Exact(st, max) && m in st.filters && st.filters[m].phase == New && EndsDeleted(ops, m)
    requires id !in st.installed && st.nucast + st.nmcast < max
    requires Walks(order, Raced(st, m, ops, Accepted(id)).filters) && Picks(pick)
    ensures var raced := Raced(st, m, ops, Accepted(id));
            var st' := Sync(raced, order, pick, max);
            && Exact(raced, max) && Exact(st', max)
            && id in IdsOf(raced.filters, Picked(raced.filters, order, Old))
            && m !in st'.filters && m !in st'.installed.Values
  {
    var raced := Raced(st, m, ops, Accepted(id));
    RaceIff(st, m, ops, Accepted(id), max);
    NextSyncDeletes(st.filters, m, ops, id, order);
    DeleteNeverLost(st.filters, m, ops, id);
    SyncSettles(raced, order, pick, max);
    GoneAfterSync(raced, m, order, pick, max);
  }

  /** An OLD filter is gone after a sync, from the driver and from firmware. */
  lemma GoneAfterSync(st: State, m: Mac, order: seq<Mac>, pick: map<nat, Mac> -> nat, max: nat)
    requires Exact(st, max) && m in st.filters && st.filters[m].phase == Old && Walks(order, st.filters) && Picks(pick)
    ensures var st' := Sync(st, order, pick, max);
            m !in st'.filters && m !in st'.installed.Values
  {
    var st' := Sync(st, order, pick, max);
    SyncSettles(st, order, pick, max);
    assert m !in Wanted(st'.filters);
    forall id | id in st'.installed
      ensures st'.installed[id] != m
    {
      assert st'.installed[id] in st'.filters;
    }
  }

  // ----- what goes wrong otherwise --------------------------------------------------------

  /**
    A refused add of a newly listed address that is unlisted meanwhile: the next
    delete takes id 0 from firmware's table, and counts it, whoever holds it.
   */
  lemma RefusedRaceDeletesAnother(st: State, m: Mac, ops: seq<Update>, max: nat)
    requires Exact(st, max) && m in st.filters && st.filters[m] == Entry(New, 0) && EndsDeleted(ops, m)
    requires 0 in st.installed
    ensures var st' := Remove(Raced(st, m, ops, Refused), m);
            var other := st.installed[0];
            && st'.installed == st.installed - {0}
            && other != m && other in st'.filters && st'.filters[other].phase != New && st'.filters[other].id == 0
            && !Exact(st', max)
  {
    var raced := Raced(st, m, ops, Refused);
    var other := st.installed[0];
    RefusedAdd(st.filters, m, ops);
    ClaimedAside(st, m, ops, max);
    var f := Updated(AddBegin(st.filters, m), ops);
    assert raced.filters - {m} == f - {m};
    assert other in f - {m} && (f - {m})[other].phase != New && (f - {m})[other].id == 0;
    assert 0 !in st.installed - {0};
  }

  /** The smallest case: room for one filter, taken by a; m unlisted while its add is refused for lack of room. */
  lemma DeletesAnotherExample(a: Mac, m: Mac)
    requires a != m && !Multicast(a) && !Multicast(m)
    ensures var st := State(map[a := Entry(Synced, 0), m := Entry(New, 0)], 1, 0, map[0 := a]);
            && Exact(st, 1)
            && Remove(Raced(st, m, [Update(m, false)], Refused), m) == State(map[a := Entry(Synced, 0)], 0, 0, map[])
  {
    var f := map[a := Entry(Synced, 0), m := Entry(New, 0)];
    assert Live(f) == {a} && Ucast({a}) == {a} && Mcast({a}) == {};
    var f1 := AddBegin(f, m);
    assert Updated(f1, [Update(m, false)]) == Updated(ListAddr(f1, m, false), []);
    var st' := Remove(Raced(State(f, 1, 0, map[0 := a]), m, [Update(m, false)], Refused), m);
    assert st'.filters == map[a := Entry(Synced, 0)];
    assert st'.installed == map[];
  }

  // ----- a delete between the walk and the add -----------------------------------------------

  predicate Mentions(ops: seq<Update>, m: Mac) {
    ops != [] && (ops[|ops| - 1].m == m || Mentions(ops[..|ops| - 1], m))
  }

  /** The last update of m in two batches is the second batch's, if it has one. */
  lemma {:induction false} LastOfBoth(before: seq<Update>, during: seq<Update>, m: Mac)
    ensures EndsDeleted(before + during, m) ==
            if Mentions(during, m) then EndsDeleted(during, m) else EndsDeleted(before, m)
    decreases |during|
  {
    var all := before + during;
    if during == [] {
      assert all == before;
    } else {
      var most := during[..|during| - 1];
      assert all[..|all| - 1] == before + most;
      LastOfBoth(before, most, m);
    }
  }

  /**
    ionic_rx_filter_sync copies the filters it will add under one lock and adds
    them later.  With updates `before` the add begins and `during` it, an
    accepted add leaves m OLD exactly as its last update asks if and only if
    it is not the case that the last word was a delete before the add began:
    that delete freed the filter, and the add brings it back.
   */
  lemma StaleCopyIff(f: Filters, m: Mac, before: seq<Update>, during: seq<Update>, id: nat)
    requires m in f && f[m].phase == New
    ensures var g := AddFinish(Updated(AddBegin(Updated(f, before), m), during), m, Accepted(id));
            && m in g
            && ((g[m].phase == Old <==> EndsDeleted(before + during, m))
                <==> !(EndsDeleted(before, m) && !Mentions(during, m)))
  {
    DeleteNeverLost(Updated(f, before), m, during, id);
    LastOfBoth(before, during, m);
    if !Mentions(during, m) {
      NotDeleted(during, m);
    }
  }

  /** The smallest case: the copied filter is unlisted before its turn comes, and ends up installed and SYNCED. */
  lemma StaleCopyExample(m: Mac, id: nat)
    ensures var f := map[m := Entry(New, 0)];
            AddFinish(AddBegin(Updated(f, [Update(m, false)]), m), m, Accepted(id)) == map[m := Entry(Synced, id)]
  {
    var f: Filters := map[m := Entry(New, 0)];
    assert Updated(f, [Update(m, false)]) == Updated(ListAddr(f, m, false), []);
    assert ListAddr(f, m, false) == map[];
  }

  lemma {:induction false} NotDeleted(ops: seq<Update>, m: Mac)
    requires !Mentions(ops, m)
    ensures !EndsDeleted(ops, m)
  {
    if ops != [] {
      NotDeleted(ops[..|ops| - 1], m);
    }
  }
}

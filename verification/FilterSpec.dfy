/**
  The MAC filters as the sync logic sees them: a map from address to state and
  firmware id.  FilterTable shows that its hash tables are such a map.  Holds
  the NEW/SYNCED/OLD transitions, the bookkeeping invariant against firmware,
  and the race between an add in flight and list updates.
 */
module FilterSpec {

  /** An Ethernet address: the first four octets as the u32 the driver hashes, and the last two. */
  datatype Mac = Mac(lo: nat, hi: nat)

  predicate Multicast(m: Mac) {
    m.lo % 2 == 1
  }

  datatype Phase = New | Synced | Old

  datatype Entry = Entry(phase: Phase, id: nat)

  type Filters = map<Mac, Entry>

  // ----- list updates and the two locked sections of an add --------------------------

  /** ionic_lif_list_addr */
  function ListAddr(f: Filters, m: Mac, add: bool): Filters {
    if add then
      if m !in f then f[m := Entry(New, 0)]
      else if f[m].phase == Old then f[m := f[m].(phase := Synced)]
      else f
    else if m in f && f[m].phase == New then f - {m}
    else if m in f && f[m].phase == Synced then f[m := f[m].(phase := Old)]
    else f
  }

  datatype Reply = Accepted(id: nat) | Refused

  /** First locked section of ionic_lif_filter_add: claim the filter as SYNCED. */
  function AddBegin(f: Filters, m: Mac): Filters {
    f[m := if m in f then f[m].(phase := Synced) else Entry(Synced, 0)]
  }

  /** Second locked section: record firmware's answer. */
  function AddFinish(f: Filters, m: Mac, reply: Reply): Filters {
    match reply
    case Refused => if m in f && f[m].phase == Synced then f[m := f[m].(phase := New)] else f
    case Accepted(id) => f[m := Entry(if m in f && f[m].phase == Old then Old else Synced, id)]
  }

  // ----- the race ----------------------------------------------------------------------

  datatype Update = Update(m: Mac, add: bool)

  function Updated(f: Filters, ops: seq<Update>): Filters
    decreases |ops|
  {
    if ops == [] then f else Updated(ListAddr(f, ops[0].m, ops[0].add), ops[1..])
  }

  /** Whether the last update of address m is a delete. */
  predicate EndsDeleted(ops: seq<Update>, m: Mac) {
    ops != [] &&
    if ops[|ops| - 1].m == m then !ops[|ops| - 1].add else EndsDeleted(ops[..|ops| - 1], m)
  }

  lemma {:induction false} UpdatedSnoc(f: Filters, ops: seq<Update>, op: Update)
    ensures Updated(f, ops + [op]) == ListAddr(Updated(f, ops), op.m, op.add)
    decreases |ops|
  {
    var all := ops + [op];
    if ops == [] {
      assert all[1..] == [];
      assert Updated(ListAddr(f, op.m, op.add), []) == ListAddr(f, op.m, op.add);
    } else {
      assert all[0] == ops[0] && all[1..] == ops[1..] + [op];
      UpdatedSnoc(ListAddr(f, ops[0].m, ops[0].add), ops[1..], op);
    }
  }

  /** A claimed filter survives every list update, which only turn it OLD and back. */
  lemma {:induction false} ClaimSurvives(f: Filters, m: Mac, ops: seq<Update>)
    requires m in f && f[m].phase == Synced
    ensures var g := Updated(f, ops);
            m in g && g[m] == Entry(if EndsDeleted(ops, m) then Old else Synced, f[m].id)
    decreases |ops|
  {
    if ops != [] {
      var most, last := ops[..|ops| - 1], ops[|ops| - 1];
      assert ops == most + [last];
      ClaimSurvives(f, m, most);
      UpdatedSnoc(f, most, last);
    }
  }

  /**
    No delete that lands while an add is in flight is lost, whatever else is
    listed meanwhile: once firmware accepts, the filter carries firmware's id,
    and is OLD exactly when its last update was a delete.
   */
  lemma DeleteNeverLost(f: Filters, m: Mac, ops: seq<Update>, id: nat)
    ensures var g := AddFinish(Updated(AddBegin(f, m), ops), m, Accepted(id));
            m in g && g[m] == Entry(if EndsDeleted(ops, m) then Old else Synced, id)
  {
    ClaimSurvives(AddBegin(f, m), m, ops);
  }

  /**
    When firmware refuses, the filter goes back to NEW, unless its last update
    was a delete: then it stays OLD under the id it had before the add, which
    firmware has not assigned to it if it was new.
   */
  lemma RefusedAdd(f: Filters, m: Mac, ops: seq<Update>)
    ensures var g := AddFinish(Updated(AddBegin(f, m), ops), m, Refused);
            m in g && g[m] == Entry(if EndsDeleted(ops, m) then Old else New, if m in f then f[m].id else 0)
  {
    ClaimSurvives(AddBegin(f, m), m, ops);
  }

  // ----- what one sync deletes ------------------------------------------------------------

  /** The order in which the by_id walk meets the filters: each once. */
  ghost predicate Walks(order: seq<Mac>, f: Filters) {
    && (forall i :: 0 <= i < |order| ==> order[i] in f)
    && (forall m :: m in f ==> m in order)
    && (forall i, j :: 0 <= i < j < |order| ==> order[i] != order[j])
  }

  /** Addresses in the given phase, last met first: list_add puts each at the front. */
  function Picked(f: Filters, order: seq<Mac>, phase: Phase): seq<Mac> {
    if order == [] then []
    else
      var last := order[|order| - 1];
      (if last in f && f[last].phase == phase then [last] else []) + Picked(f, order[..|order| - 1], phase)
  }

  /** The ids recorded for the given addresses. */
  function IdsOf(f: Filters, ms: seq<Mac>): seq<nat> {
    if ms == [] then [] else (if ms[0] in f then [f[ms[0]].id] else []) + IdsOf(f, ms[1..])
  }

  lemma {:induction false} PickedExactly(f: Filters, order: seq<Mac>, phase: Phase)
    ensures forall m :: m in Picked(f, order, phase) <==> m in order && m in f && f[m].phase == phase
    decreases |order|
  {
    if order != [] {
      var most, last := order[..|order| - 1], order[|order| - 1];
      assert order == most + [last];
      PickedExactly(f, most, phase);
    }
  }

  lemma {:induction false} IdsHas(f: Filters, ms: seq<Mac>, m: Mac)
    requires m in ms && m in f
    ensures f[m].id in IdsOf(f, ms)
  {
    if ms[0] != m {
      IdsHas(f, ms[1..], m);
    }
  }

  lemma {:induction false} IdsWithout(f: Filters, m: Mac, ms: seq<Mac>)
    requires m !in ms
    ensures IdsOf(f - {m}, ms) == IdsOf(f, ms)
  {
    if ms != [] {
      IdsWithout(f, m, ms[1..]);
    }
  }

  /** The next sync sends a delete for the id firmware returned, in whatever order it walks the filters. */
  lemma NextSyncDeletes(f: Filters, m: Mac, ops: seq<Update>, id: nat, order: seq<Mac>)
    requires Walks(order, AddFinish(Updated(AddBegin(f, m), ops), m, Accepted(id)))
    requires EndsDeleted(ops, m)
    ensures var g := AddFinish(Updated(AddBegin(f, m), ops), m, Accepted(id));
            var dels := Picked(g, order, Old);
            m in dels && id in IdsOf(g, dels)
  {
    var g := AddFinish(Updated(AddBegin(f, m), ops), m, Accepted(id));
    DeleteNeverLost(f, m, ops, id);
    PickedExactly(g, order, Old);
    IdsHas(g, Picked(g, order, Old), m);
  }

  /**
    The promise is for accepted adds only: refuse the add of a newly listed
    address that is unlisted meanwhile, and the next sync sends a delete for id
    0, an id firmware may have given to another filter.
   */
  lemma RefusedDeleteIsStale(f: Filters, m: Mac, ops: seq<Update>, order: seq<Mac>)
    requires m in f && f[m] == Entry(New, 0) && EndsDeleted(ops, m)
    requires Walks(order, AddFinish(Updated(AddBegin(f, m), ops), m, Refused))
    ensures var g := AddFinish(Updated(AddBegin(f, m), ops), m, Refused);
            var dels := Picked(g, order, Old);
            m in dels && 0 in IdsOf(g, dels)
  {
    var g := AddFinish(Updated(AddBegin(f, m), ops), m, Refused);
    RefusedAdd(f, m, ops);
    PickedExactly(g, order, Old);
    IdsHas(g, Picked(g, order, Old), m);
  }

  // ----- books against firmware ---------------------------------------------------------------

  /** `installed` is firmware's filter table, by filter id. */
  datatype State = State(filters: Filters, nucast: nat, nmcast: nat, installed: map<nat, Mac>)

  function Live(f: Filters): set<Mac> {
    set m | m in f && f[m].phase != New
  }

  function Ucast(s: set<Mac>): set<Mac> {
    set m | m in s && !Multicast(m)
  }

  function Mcast(s: set<Mac>): set<Mac> {
    set m | m in s && Multicast(m)
  }

  /** Firmware holds exactly the SYNCED and OLD filters, under the ids recorded. */
  ghost predicate Mirrored(f: Filters, installed: map<nat, Mac>) {
    && (forall m :: m in f && f[m].phase != New ==> f[m].id in installed && installed[f[m].id] == m)
    && (forall id :: id in installed ==>
          installed[id] in f && f[installed[id]].phase != New && f[installed[id]].id == id)
  }

  /** The counters count the installed filters, within the advertised room. */
  ghost predicate Exact(st: State, max: nat) {
    && Mirrored(st.filters, st.installed)
    && st.nucast == |Ucast(Live(st.filters))| && st.nmcast == |Mcast(Live(st.filters))|
    && |st.installed| == st.nucast + st.nmcast <= max
  }

  /** Addresses the stack has listed and not unlisted. */
  function Wanted(f: Filters): set<Mac> {
    set m | m in f && f[m].phase != Old
  }

  function Counted(st: State, m: Mac, up: bool): State {
    if Multicast(m) then st.(nmcast := if up then st.nmcast + 1 else if st.nmcast > 0 then st.nmcast - 1 else 0)
    else st.(nucast := if up then st.nucast + 1 else if st.nucast > 0 then st.nucast - 1 else 0)
  }

  /** A filter that was not installed now is, under firmware's id. */
  function Install(st: State, m: Mac, id: nat): State {
    Counted(st, m, true).(filters := st.filters[m := Entry(Synced, id)], installed := st.installed[id := m])
  }

  /** ionic_lif_filter_del, with firmware obeying; a missing filter is an error that changes nothing. */
  function Remove(st: State, m: Mac): State {
    if m !in st.filters then st
    else
      Counted(st, m, false).(
        filters := st.filters - {m},
        installed := if st.filters[m].phase == New then st.installed else st.installed - {st.filters[m].id})
  }

  lemma SplitAdd(s: set<Mac>, m: Mac)
    requires m !in s
    ensures |Ucast(s + {m})| == |Ucast(s)| + (if Multicast(m) then 0 else 1)
    ensures |Mcast(s + {m})| == |Mcast(s)| + (if Multicast(m) then 1 else 0)
  {
    if Multicast(m) {
      assert Ucast(s + {m}) == Ucast(s) && Mcast(s + {m}) == Mcast(s) + {m};
    } else {
      assert Ucast(s + {m}) == Ucast(s) + {m} && Mcast(s + {m}) == Mcast(s);
    }
  }

  lemma MirroredInstall(f: Filters, installed: map<nat, Mac>, m: Mac, id: nat)
    requires Mirrored(f, installed) && m !in Live(f) && id !in installed
    ensures Mirrored(f[m := Entry(Synced, id)], installed[id := m])
  {
  }

  lemma LiveInstall(f: Filters, m: Mac, id: nat)
    ensures Live(f[m := Entry(Synced, id)]) == Live(f) + {m}
  {
  }

  lemma OneMoreInstalled(installed: map<nat, Mac>, id: nat, m: Mac)
    requires id !in installed
    ensures |installed[id := m]| == |installed| + 1
  {
    assert installed[id := m].Keys == installed.Keys + {id};
  }

  lemma InstallKeepsExact(st: State, m: Mac, id: nat, max: nat)
    requires Exact(st, max) && m !in Live(st.filters) && id !in st.installed && st.nucast + st.nmcast < max
    ensures Exact(Install(st, m, id), max)
  {
    SplitAdd(Live(st.filters), m);
    LiveInstall(st.filters, m, id);
    OneMoreInstalled(st.installed, id, m);
    MirroredInstall(st.filters, st.installed, m, id);
  }

  lemma RemoveKeepsExact(st: State, m: Mac, max: nat)
    requires Exact(st, max) && m in Live(st.filters)
    ensures Exact(Remove(st, m), max)
  {
    var rest := Live(st.filters) - {m};
    SplitAdd(rest, m);
    assert rest + {m} == Live(st.filters);
    assert Live(Remove(st, m).filters) == rest;
    var id := st.filters[m].id;
    assert st.installed.Keys == Remove(st, m).installed.Keys + {id};
    MirroredRemove(st.filters, st.installed, m);
  }

  lemma MirroredRemove(f: Filters, installed: map<nat, Mac>, m: Mac)
    requires Mirrored(f, installed) && m in f && f[m].phase != New
    ensures Mirrored(f - {m}, installed - {f[m].id})
  {
  }

  /** List updates touch neither firmware nor the counters, and keep the books exact. */
  lemma ListAddrKeepsExact(st: State, m: Mac, add: bool, max: nat)
    requires Exact(st, max)
    ensures Exact(st.(filters := ListAddr(st.filters, m, add)), max)
    ensures Wanted(ListAddr(st.filters, m, add)) == if add then Wanted(st.filters) + {m} else Wanted(st.filters) - {m}
  {
    ListAddrMirrored(st.filters, st.installed, m, add);
    ListAddrSets(st.filters, m, add);
  }

  lemma ListAddrMirrored(f: Filters, installed: map<nat, Mac>, m: Mac, add: bool)
    requires Mirrored(f, installed)
    ensures Mirrored(ListAddr(f, m, add), installed)
  {
  }

  lemma ListAddrSets(f: Filters, m: Mac, add: bool)
    ensures Live(ListAddr(f, m, add)) == Live(f)
    ensures Wanted(ListAddr(f, m, add)) == if add then Wanted(f) + {m} else Wanted(f) - {m}
  {
  }

  // ----- one sync ---------------------------------------------------------------------------------

  /** Firmware picks an id that is not in use. */
  ghost predicate Picks(pick: map<nat, Mac> -> nat) {
    forall inst: map<nat, Mac> :: pick(inst) !in inst
  }

  /** Firmware's answer to an add: it refuses only for lack of the advertised room. */
  function FirmwareReply(installed: map<nat, Mac>, pick: map<nat, Mac> -> nat, max: nat): Reply {
    if |installed| < max then Accepted(pick(installed)) else Refused
  }

  /** ionic_lif_filter_add with no list update between its two locked sections */
  function AddOne(st: State, m: Mac, pick: map<nat, Mac> -> nat, max: nat): State {
    if m in st.filters && st.filters[m].phase == Synced then st
    else
      var claimed := AddBegin(st.filters, m);
      var reply := if st.nucast + st.nmcast >= max then Refused else FirmwareReply(st.installed, pick, max);
      match reply
      case Refused => st.(filters := AddFinish(claimed, m, Refused))
      case Accepted(id) =>
        Counted(st, m, true).(filters := AddFinish(claimed, m, reply), installed := st.installed[id := m])
  }

  function RemoveAll(st: State, ms: seq<Mac>): State
    decreases |ms|
  {
    if ms == [] then st else RemoveAll(Remove(st, ms[0]), ms[1..])
  }

  function AddAll(st: State, ms: seq<Mac>, pick: map<nat, Mac> -> nat, max: nat): State
    decreases |ms|
  {
    if ms == [] then st else AddAll(AddOne(st, ms[0], pick, max), ms[1..], pick, max)
  }

  /** ionic_rx_filter_sync, walking the filters in the given order: deletes first, to make room. */
  function Sync(st: State, order: seq<Mac>, pick: map<nat, Mac> -> nat, max: nat): State {
    AddAll(RemoveAll(st, Picked(st.filters, order, Old)), Picked(st.filters, order, New), pick, max)
  }

  /** What FilterAdd does to a NEW filter when the books are exact. */
  lemma AddOneNew(st: State, m: Mac, pick: map<nat, Mac> -> nat, max: nat)
    requires Exact(st, max) && m in st.filters && st.filters[m].phase == New
    ensures AddOne(st, m, pick, max) == if st.nucast + st.nmcast >= max then st else Install(st, m, pick(st.installed))
  {
    var f := st.filters;
    assert AddFinish(AddBegin(f, m), m, Refused) == f;
    assert AddFinish(AddBegin(f, m), m, Accepted(pick(st.installed))) == f[m := Entry(Synced, pick(st.installed))];
  }

  /** The addresses `ms` are distinct and in the given phase. */
  ghost predicate AllIn(f: Filters, ms: seq<Mac>, phase: Phase) {
    ms == [] || (ms[0] !in ms[1..] && ms[0] in f && f[ms[0]].phase == phase && AllIn(f, ms[1..], phase))
  }

  lemma {:induction false} AllInFrame(f: Filters, f': Filters, ms: seq<Mac>, phase: Phase)
    requires AllIn(f, ms, phase)
    requires forall m :: m in ms && m in f && f[m].phase == phase ==> m in f' && f'[m].phase == phase
    ensures AllIn(f', ms, phase)
  {
    if ms != [] {
      AllInFrame(f, f', ms[1..], phase);
    }
  }

  /** Removing installed filters one by one keeps the books exact and touches nothing else. */
  lemma {:induction false} RemoveAllExact(st: State, ms: seq<Mac>, max: nat)
    requires Exact(st, max) && AllIn(st.filters, ms, Old)
    ensures Exact(RemoveAll(st, ms), max)
    decreases |ms|
  {
    if ms != [] {
      var st' := Remove(st, ms[0]);
      RemoveKeepsExact(st, ms[0], max);
      AllInFrame(st.filters, st'.filters, ms[1..], Old);
      RemoveAllExact(st', ms[1..], max);
    }
  }

  lemma {:induction false} RemoveAllFilters(st: State, ms: seq<Mac>)
    ensures RemoveAll(st, ms).filters == Without(st.filters, ms)
    decreases |ms|
  {
    if ms != [] {
      RemoveAllFilters(Remove(st, ms[0]), ms[1..]);
      WithoutMore(st.filters, ms);
    }
  }

  function Without(f: Filters, ms: seq<Mac>): Filters {
    map m | m in f && m !in ms :: f[m]
  }

  lemma WithoutMore(f: Filters, ms: seq<Mac>)
    requires ms != []
    ensures Without(f - {ms[0]}, ms[1..]) == Without(f, ms)
    ensures ms[0] !in f ==> Without(f, ms[1..]) == Without(f, ms)
  {
    assert forall m :: m in ms <==> m == ms[0] || m in ms[1..];
  }

  predicate Full(st: State, max: nat) {
    st.nucast + st.nmcast >= max
  }

  /** What a round of adds does to the filters: those in `ms` are installed, or stay NEW for lack of room. */
  ghost predicate Adds(f: Filters, ms: seq<Mac>, f': Filters, full: bool) {
    && f'.Keys == f.Keys
    && (forall m :: m in f && m !in ms ==> f'[m] == f[m])
    && (forall m :: m in f && m in ms ==> f'[m].phase == Synced || (full && f'[m].phase == New))
  }

  lemma AddsMore(f: Filters, next: Filters, ms: seq<Mac>, f': Filters, full: bool)
    requires ms != [] && ms[0] in f && ms[0] !in ms[1..] && Adds(next, ms[1..], f', full)
    requires next.Keys == f.Keys && forall m :: m in f && m != ms[0] ==> next[m] == f[m]
    requires next[ms[0]].phase == Synced || (full && next[ms[0]].phase == New)
    ensures Adds(f, ms, f', full)
  {
    assert forall m :: m in ms <==> m == ms[0] || m in ms[1..];
  }

  lemma AddOneExact(st: State, m: Mac, pick: map<nat, Mac> -> nat, max: nat)
    requires Exact(st, max) && m in st.filters && st.filters[m].phase == New && Picks(pick)
    ensures var next := AddOne(st, m, pick, max);
            && Exact(next, max) && Adds(st.filters, [m], next.filters, Full(st, max))
  {
    AddOneNew(st, m, pick, max);
    if !Full(st, max) {
      InstallKeepsExact(st, m, pick(st.installed), max);
    }
  }

  /** Adding NEW filters one by one keeps the books exact. */
  lemma {:induction false} AddAllKeepsExact(st: State, ms: seq<Mac>, pick: map<nat, Mac> -> nat, max: nat)
    requires Exact(st, max) && AllIn(st.filters, ms, New) && Picks(pick)
    ensures Exact(AddAll(st, ms, pick, max), max)
    decreases |ms|
  {
    if ms != [] {
      var next := AddOne(st, ms[0], pick, max);
      AddOneExact(st, ms[0], pick, max);
      AllInFrame(st.filters, next.filters, ms[1..], New);
      AddAllKeepsExact(next, ms[1..], pick, max);
    }
  }

  /** And installs all of them, or uses up the room. */
  lemma {:induction false} AddAllInstalls(st: State, ms: seq<Mac>, pick: map<nat, Mac> -> nat, max: nat)
    requires Exact(st, max) && AllIn(st.filters, ms, New) && Picks(pick)
    ensures var st' := AddAll(st, ms, pick, max);
            Adds(st.filters, ms, st'.filters, Full(st', max))
    decreases |ms|
  {
    if ms != [] {
      var next := AddOne(st, ms[0], pick, max);
      AddOneExact(st, ms[0], pick, max);
      AllInFrame(st.filters, next.filters, ms[1..], New);
      AddAllInstalls(next, ms[1..], pick, max);
      if Full(st, max) {
        StaysFull(st, ms, pick, max);
      }
      var st' := AddAll(st, ms, pick, max);
      AddsMore(st.filters, next.filters, ms, st'.filters, Full(st', max));
    }
  }

  lemma {:induction false} StaysFull(st: State, ms: seq<Mac>, pick: map<nat, Mac> -> nat, max: nat)
    requires Full(st, max)
    ensures Full(AddAll(st, ms, pick, max), max)
    decreases |ms|
  {
    if ms != [] {
      StaysFull(AddOne(st, ms[0], pick, max), ms[1..], pick, max);
    }
  }

  lemma AllInCons(f: Filters, m: Mac, ms: seq<Mac>, phase: Phase)
    requires AllIn(f, ms, phase) && m !in ms && m in f && f[m].phase == phase
    ensures AllIn(f, [m] + ms, phase)
  {
    assert ([m] + ms)[1..] == ms;
  }

  lemma {:induction false} PickedAllIn(f: Filters, order: seq<Mac>, phase: Phase)
    requires forall i, j :: 0 <= i < j < |order| ==> order[i] != order[j]
    ensures AllIn(f, Picked(f, order, phase), phase)
    decreases |order|
  {
    if order != [] {
      var most, last := order[..|order| - 1], order[|order| - 1];
      PickedAllIn(f, most, phase);
      var rest := Picked(f, most, phase);
      if last in f && f[last].phase == phase {
        PickedExactly(f, most, phase);
        assert last !in most;
        AllInCons(f, last, rest, phase);
      } else {
        assert Picked(f, order, phase) == rest;
      }
    }
  }

  /** Removing the OLD filters and adding the NEW ones, on the filters alone. */
  lemma SyncEffect(f: Filters, dels: seq<Mac>, adds: seq<Mac>, mid: Filters, f': Filters, full: bool)
    requires forall m :: m in dels <==> m in f && f[m].phase == Old
    requires forall m :: m in adds <==> m in f && f[m].phase == New
    requires mid == Without(f, dels) && Adds(mid, adds, f', full)
    ensures Wanted(f') == Wanted(f)
    ensures forall m :: m in f' ==> f'[m].phase == Synced || (full && f'[m].phase == New)
  {
    forall m | m in f'
      ensures f'[m].phase == Synced || (full && f'[m].phase == New)
    {
      assert m in mid.Keys;
    }
    forall m
      ensures m in f' <==> m in f && f[m].phase != Old
    {
      assert m in mid.Keys <==> m in f'.Keys;
    }
  }

  /**
    One sync, whatever order it walks the filters in: the books stay exact, the
    stack's list is untouched, no OLD filter is left, and every listed address
    is installed unless the advertised room is used up.
   */
  lemma SyncSettles(st: State, order: seq<Mac>, pick: map<nat, Mac> -> nat, max: nat)
    requires Exact(st, max) && Walks(order, st.filters) && Picks(pick)
    ensures var st' := Sync(st, order, pick, max);
            && Exact(st', max)
            && Wanted(st'.filters) == Wanted(st.filters)
            && forall m :: m in st'.filters ==>
                 st'.filters[m].phase == Synced || (Full(st', max) && st'.filters[m].phase == New)
  {
    var dels, adds := Picked(st.filters, order, Old), Picked(st.filters, order, New);
    PickedAllIn(st.filters, order, Old);
    PickedAllIn(st.filters, order, New);
    PickedExactly(st.filters, order, Old);
    PickedExactly(st.filters, order, New);
    RemoveAllExact(st, dels, max);
    RemoveAllFilters(st, dels);
    var mid := RemoveAll(st, dels);
    AllInFrame(st.filters, mid.filters, adds, New);
    AddAllKeepsExact(mid, adds, pick, max);
    AddAllInstalls(mid, adds, pick, max);
    var st' := Sync(st, order, pick, max);
    SyncEffect(st.filters, dels, adds, mid.filters, st'.filters, Full(st', max));
  }

  /** Hence every listed address is installed or the room is used up, and the counters count firmware's filters. */
  lemma SyncCovers(st: State, order: seq<Mac>, pick: map<nat, Mac> -> nat, max: nat)
    requires Exact(st, max) && Walks(order, st.filters) && Picks(pick)
    ensures var st' := Sync(st, order, pick, max);
            && Wanted(st'.filters) == Wanted(st.filters)
            && (forall m :: m in Wanted(st.filters) ==> Full(st', max) || m in st'.installed.Values)
            && (forall m :: m in st'.filters ==> st'.filters[m].phase != Old)
            && st'.nucast + st'.nmcast == |st'.installed| <= max
  {
    SyncSettles(st, order, pick, max);
    var st' := Sync(st, order, pick, max);
    forall m | m in Wanted(st'.filters) && !Full(st', max)
      ensures m in st'.installed.Values
    {
      assert st'.installed[st'.filters[m].id] == m;
    }
  }

  /** With room to spare, firmware holds exactly the listed addresses after a sync. */
  lemma SyncInstallsExactly(st: State, order: seq<Mac>, pick: map<nat, Mac> -> nat, max: nat)
    requires Exact(st, max) && Walks(order, st.filters) && Picks(pick) && !Full(Sync(st, order, pick, max), max)
    ensures forall m :: m in Sync(st, order, pick, max).installed.Values <==> m in Wanted(st.filters)
  {
    var st' := Sync(st, order, pick, max);
    SyncSettles(st, order, pick, max);
    SyncCovers(st, order, pick, max);
    forall m | m in st'.installed.Values
      ensures m in Wanted(st.filters)
    {
      var id :| id in st'.installed && st'.installed[id] == m;
      assert m in st'.filters;
    }
  }

  // ----- whole runs ---------------------------------------------------------------------------------

  /** The stack lists or unlists an address, or the deferred worker syncs, walking the filters in some order. */
  datatype Call = List(m: Mac, add: bool) | Pass(order: seq<Mac>)

  function After(calls: seq<Call>, pick: map<nat, Mac> -> nat, max: nat): State {
    if calls == [] then State(map[], 0, 0, map[])
    else
      var st := After(calls[..|calls| - 1], pick, max);
      match calls[|calls| - 1]
      case List(m, add) => st.(filters := ListAddr(st.filters, m, add))
      case Pass(order) => Sync(st, order, pick, max)
  }

  /** Every sync walks the filters that are there when it runs. */
  ghost predicate Runs(calls: seq<Call>, pick: map<nat, Mac> -> nat, max: nat) {
    calls == [] ||
    var most, last := calls[..|calls| - 1], calls[|calls| - 1];
    Runs(most, pick, max) && (last.Pass? ==> Walks(last.order, After(most, pick, max).filters))
  }

  /** What the stack has listed and not unlisted, from its calls alone. */
  function Listed(calls: seq<Call>): set<Mac> {
    if calls == [] then {}
    else
      var before := Listed(calls[..|calls| - 1]);
      match calls[|calls| - 1]
      case List(m, add) => if add then before + {m} else before - {m}
      case Pass(_) => before
  }

  /** Every run keeps the books exact and the filters in step with the stack's list. */
  lemma {:induction false} EveryRun(calls: seq<Call>, pick: map<nat, Mac> -> nat, max: nat)
    requires Runs(calls, pick, max) && Picks(pick)
    ensures Exact(After(calls, pick, max), max)
    ensures Wanted(After(calls, pick, max).filters) == Listed(calls)
    decreases |calls|
  {
    if calls != [] {
      var most := calls[..|calls| - 1];
      EveryRun(most, pick, max);
      match calls[|calls| - 1]
      case List(m, add) => ListAddrKeepsExact(After(most, pick, max), m, add, max);
      case Pass(order) => SyncSettles(After(most, pick, max), order, pick, max);
    }
  }

  /** After any run that ends with a sync, every address listed is installed, or the advertised room is used up. */
  lemma EveryListedIsReceived(calls: seq<Call>, order: seq<Mac>, pick: map<nat, Mac> -> nat, max: nat)
    requires Runs(calls + [Pass(order)], pick, max) && Picks(pick)
    ensures var st := After(calls + [Pass(order)], pick, max);
            && (forall m :: m in Listed(calls) ==> Full(st, max) || m in st.installed.Values)
            && (forall m :: m in st.filters ==> st.filters[m].phase != Old)
            && st.nucast + st.nmcast == |st.installed| <= max
  {
    var all := calls + [Pass(order)];
    assert all[..|all| - 1] == calls;
    EveryRun(calls, pick, max);
    SyncCovers(After(calls, pick, max), order, pick, max);
  }
}

/**
  A replay after a firmware restart, against the books of the sync logic: every
  stored filter is posted to an empty firmware table, whatever its phase, and
  neither phases nor counters are touched.
 */
module FilterRestart {
  import opened Common
  import opened FilterBuckets
  import opened FilterSpec
  import opened FilterIndex

  /** Firmware's answer to the replay of an address: its new id, or an error. */
  type Replies = Mac -> Option<nat>

  /** Firmware never gives out an id twice. */
  ghost predicate Distinct(f: Filters, reply: Replies) {
    forall a, b :: a in f && b in f && reply(a).Some? && reply(a) == reply(b) ==> a == b
  }

  /** The filters that stay, under their new ids. */
  function Kept(f: Filters, reply: Replies): Filters {
    map m | m in f && reply(m).Some? :: f[m].(id := reply(m).value)
  }

  /** Firmware's table afterwards. */
  function Holds(f: Filters, reply: Replies): map<nat, Mac>
    requires Distinct(f, reply)
  {
    map m | m in f && reply(m).Some? :: reply(m).value := m
  }

  function Restarted(st: State, reply: Replies): State
    requires Distinct(st.filters, reply)
  {
    st.(filters := Kept(st.filters, reply), installed := Holds(st.filters, reply))
  }

  /** The replay of the table is this replay of the map. */
  lemma ReplayIsRestart(objs: map<Handle, Filter>, objs': map<Handle, Filter>, answer: Handle -> Option<nat>,
                        reply: Replies)
    requires Unique(objs) && Unique(objs')
    requires objs' == map h | h in objs && answer(h).Some? :: objs[h].(id := answer(h).value)
    requires forall h :: h in objs && objs[h].what.Addr? ==> answer(h) == reply(objs[h].what.mac)
    ensures Macs(objs') == Kept(Macs(objs), reply)
  {
    forall mac | mac in Macs(objs')
      ensures mac in Kept(Macs(objs), reply) && Kept(Macs(objs), reply)[mac] == Macs(objs')[mac]
    {
      var h := MacsFrom(objs', mac);
      MacsAt(objs', h);
      MacsAt(objs, h);
    }
    forall mac | mac in Kept(Macs(objs), reply)
      ensures mac in Macs(objs')
    {
      var h := MacsFrom(objs, mac);
      assert h in objs';
      MacsAt(objs', h);
    }
  }

  // ----- exactly when the books survive ---------------------------------------------

  /** Exactly the filters that had been installed are accepted. */
  ghost predicate SameAsBefore(f: Filters, reply: Replies) {
    forall m :: m in f ==> (reply(m).Some? <==> f[m].phase != New)
  }

  /** Firmware's table mirrors the filters iff none of those accepted is NEW. */
  lemma MirroredIff(f: Filters, reply: Replies)
    requires Distinct(f, reply)
    ensures Mirrored(Kept(f, reply), Holds(f, reply)) <==> forall m :: m in f && f[m].phase == New ==> reply(m).None?
  {
    var f', installed := Kept(f, reply), Holds(f, reply);
    forall m | m in f'
      ensures f'[m].id in installed && installed[f'[m].id] == m
    {
      assert reply(m).value in installed;
    }
    if Mirrored(f', installed) {
      forall m | m in f && reply(m).Some?
        ensures f[m].phase != New
      {
        assert m in f' && installed[f'[m].id] == m;
      }
    }
  }

  lemma SubsetSame(a: set<Mac>, b: set<Mac>)
    requires a <= b
    ensures |a| <= |b| && (|a| == |b| ==> a == b)
  {
    var rest := b - a;
    assert b == a + rest;
    if rest == {} {
      assert a == b;
    }
  }

  lemma {:induction false} HoldsSize(f: Filters, reply: Replies)
    requires Distinct(f, reply)
    ensures |Holds(f, reply)| == |Kept(f, reply)|
  {
    var installed, keys := Holds(f, reply), Kept(f, reply).Keys;
    SameSize(installed.Keys, keys, f, reply);
  }

  /** One id for each accepted address. */
  lemma {:induction false} SameSize(ids: set<nat>, ms: set<Mac>, f: Filters, reply: Replies)
    requires Distinct(f, reply) && forall m :: m in ms ==> m in f && reply(m).Some?
    requires ids == set m | m in ms :: reply(m).value
    ensures |ids| == |ms|
    decreases ms
  {
    if ms != {} {
      var m :| m in ms;
      var id := reply(m).value;
      var ms' := ms - {m};
      assert ids - {id} == set k | k in ms' :: reply(k).value;
      SameSize(ids - {id}, ms', f, reply);
    }
  }

  /** The counters stay right iff every filter that was installed is accepted. */
  lemma CountsIff(f: Filters, reply: Replies)
    ensures var live, live' := Live(f), Live(Kept(f, reply));
            |Ucast(live')| == |Ucast(live)| && |Mcast(live')| == |Mcast(live)| <==>
            forall m :: m in f && f[m].phase != New ==> reply(m).Some?
  {
    var live, live' := Live(f), Live(Kept(f, reply));
    SubsetSame(Ucast(live'), Ucast(live));
    SubsetSame(Mcast(live'), Mcast(live));
    SplitSame(live', live);
    if live' == live {
      forall m | m in f && f[m].phase != New
        ensures reply(m).Some?
      {
        assert m in live';
      }
    }
  }

  lemma SplitSame(a: set<Mac>, b: set<Mac>)
    ensures Ucast(a) == Ucast(b) && Mcast(a) == Mcast(b) <==> a == b
  {
    if Ucast(a) == Ucast(b) && Mcast(a) == Mcast(b) {
      forall m
        ensures m in a <==> m in b
      {
        assert m in Ucast(a) || m in Mcast(a) <==> m in a;
        assert m in Ucast(b) || m in Mcast(b) <==> m in b;
      }
    }
  }

  lemma SplitSize(s: set<Mac>)
    ensures |Ucast(s)| + |Mcast(s)| == |s|
  {
    assert s == Ucast(s) + Mcast(s);
  }

  /** With nothing NEW accepted, firmware holds as many filters as are live. */
  lemma InstalledSize(f: Filters, reply: Replies)
    requires Distinct(f, reply) && forall m :: m in f && f[m].phase == New ==> reply(m).None?
    ensures |Holds(f, reply)| == |Ucast(Live(Kept(f, reply)))| + |Mcast(Live(Kept(f, reply)))|
  {
    HoldsSize(f, reply);
    SplitSize(Live(Kept(f, reply)));
    assert Kept(f, reply).Keys == Live(Kept(f, reply));
  }

  /**
    From exact books, the books after the replay are exact if and only if
    firmware accepts exactly the filters that were installed before: a NEW
    filter it accepts is installed but not counted, a SYNCED or OLD one it
    refuses is counted but gone.
   */
  lemma RestartExactIff(st: State, reply: Replies, max: nat)
    requires Exact(st, max) && Distinct(st.filters, reply)
    ensures Exact(Restarted(st, reply), max) <==> SameAsBefore(st.filters, reply)
  {
    MirroredIff(st.filters, reply);
    CountsIff(st.filters, reply);
    if forall m :: m in st.filters && st.filters[m].phase == New ==> reply(m).None? {
      InstalledSize(st.filters, reply);
    }
  }

  /** One address listed and not yet synced when firmware restarts: afterwards firmware holds an uncounted filter. */
  lemma RestartInstallsNew(m: Mac, id: nat, reply: Replies)
    requires reply(m) == Some(id)
    ensures var st := State(map[m := Entry(New, 0)], 0, 0, map[]);
            && Exact(st, 1) && Distinct(st.filters, reply)
            && Restarted(st, reply).filters == map[m := Entry(New, id)]
            && Restarted(st, reply).installed == map[id := m]
            && !Exact(Restarted(st, reply), 1)
  {
    var st := State(map[m := Entry(New, 0)], 0, 0, map[]);
    NothingInstalled(m);
    RestartExactIff(st, reply, 1);
    assert m in st.filters && reply(m).Some?;
  }

  lemma NothingInstalled(m: Mac)
    ensures Exact(State(map[m := Entry(New, 0)], 0, 0, map[]), 1)
  {
    var f: Filters := map[m := Entry(New, 0)];
    assert Live(f) == {} && Ucast({}) == {} && Mcast({}) == {};
  }
}

/**
  The receive filter table: every filter is on one list of by_hash and one list
  of by_id.  A bucket lookup must find what a search of all filters would, and
  the sync logic of FilterSpec must be able to treat the table as a map.
 */
module FilterIndex {
  import opened Common
  import opened FilterBuckets
  import opened FilterSpec

  /** The match part of ionic_rx_filter_add_cmd. */
  datatype Match = Vlan(vid: nat) | Addr(mac: Mac) | MacVlan(vid: nat, mac: Mac) | Steer | Unsupported(code: nat)

  datatype Filter = Filter(what: Match, id: nat, phase: Phase, flowId: nat, rxq: nat)

  datatype Table = Table(byHash: Buckets, byId: Buckets, objs: map<Handle, Filter>)

  function Key(m: Match): nat {
    match m
    case Vlan(vid) => vid
    case Addr(mac) => mac.lo
    case MacVlan(vid, _) => vid
    case Steer => 0
    case Unsupported(_) => 0
  }

  /** hash_32(key, 10): the top ten bits of the 32-bit product with the golden ratio */
  function Hash32(key: nat): (b: nat)
    ensures b < HLISTS
  {
    key * 0x61C8_8647 % 0x1_0000_0000 / 0x40_0000
  }

  function HashBucket(m: Match): nat {
    Hash32(Key(m))
  }

  /** filter_id & IONIC_RX_FILTER_HLISTS_MASK */
  function IdBucket(id: nat): nat {
    id % HLISTS
  }

  function HashSlots(objs: map<Handle, Filter>): map<Handle, nat> {
    map h | h in objs :: HashBucket(objs[h].what)
  }

  function IdSlots(objs: map<Handle, Filter>): map<Handle, nat> {
    map h | h in objs :: IdBucket(objs[h].id)
  }

  /** At most one filter per VLAN id and per MAC address. */
  ghost predicate Unique(objs: map<Handle, Filter>) {
    forall h, k ::
      h in objs && k in objs && objs[h].what == objs[k].what && (objs[h].what.Vlan? || objs[h].what.Addr?) ==> h == k
  }

  /** Both tables index the same filters, each in its bucket. */
  ghost predicate Indexed(t: Table) {
    && Indexes(t.byHash, HashSlots(t.objs))
    && Indexes(t.byId, IdSlots(t.objs))
    && Unique(t.objs)
  }

  /** A search of the whole filter set. */
  ghost predicate Finds(objs: map<Handle, Filter>, m: Match, found: Option<Handle>) {
    match found
    case None => forall h :: h in objs ==> objs[h].what != m
    case Some(h) => h in objs && objs[h].what == m
  }

  // ----- operations on values ------------------------------------------------------

  /** ionic_rx_filter_free */
  function Drop(t: Table, h: Handle): Table {
    Table(Unlink(t.byHash, h), Unlink(t.byId, h), t.objs - {h})
  }

  /** Linking a filter into both tables */
  function Insert(t: Table, h: Handle, f: Filter): Table
    requires |t.byHash| == |t.byId| == HLISTS
  {
    Table(Link(t.byHash, HashBucket(f.what), h), Link(t.byId, IdBucket(f.id), h), t.objs[h := f])
  }

  predicate Keyed(m: Match) {
    m.Vlan? || m.Addr?
  }

  lemma SlotsWithout(objs: map<Handle, Filter>, h: Handle)
    ensures HashSlots(objs - {h}) == HashSlots(objs) - {h}
    ensures IdSlots(objs - {h}) == IdSlots(objs) - {h}
  {
  }

  lemma SlotsWith(objs: map<Handle, Filter>, h: Handle, f: Filter)
    ensures HashSlots(objs[h := f]) == HashSlots(objs)[h := HashBucket(f.what)]
    ensures IdSlots(objs[h := f]) == IdSlots(objs)[h := IdBucket(f.id)]
  {
  }

  /** Freeing keeps both tables in step. */
  lemma DropIndexed(t: Table, h: Handle)
    requires Indexed(t)
    ensures Indexed(Drop(t, h))
  {
    UnlinkIndexes(t.byHash, HashSlots(t.objs), h);
    UnlinkIndexes(t.byId, IdSlots(t.objs), h);
    SlotsWithout(t.objs, h);
  }

  /** So does linking a filter whose VLAN id or address is not there yet. */
  lemma InsertIndexed(t: Table, h: Handle, f: Filter)
    requires Indexed(t) && h !in t.objs && (Keyed(f.what) ==> Finds(t.objs, f.what, None))
    ensures Indexed(Insert(t, h, f))
  {
    LinkIndexes(t.byHash, HashSlots(t.objs), HashBucket(f.what), h);
    LinkIndexes(t.byId, IdSlots(t.objs), IdBucket(f.id), h);
    SlotsWith(t.objs, h, f);
  }

  /** Refreshing a stored filter: unlinked, rewritten, linked again. */
  lemma RefreshIndexed(t: Table, h: Handle, f: Filter)
    requires Indexed(t) && h in t.objs && t.objs[h].what == f.what && Keyed(f.what)
    ensures Indexed(Insert(Drop(t, h), h, f))
    ensures Insert(Drop(t, h), h, f).objs == t.objs[h := f]
  {
    DropIndexed(t, h);
    GoneAfterDrop(t.objs, h);
    InsertIndexed(Drop(t, h), h, f);
  }

  lemma GoneAfterDrop(objs: map<Handle, Filter>, h: Handle)
    requires Unique(objs) && h in objs && Keyed(objs[h].what)
    ensures Finds(objs - {h}, objs[h].what, None)
  {
  }

  // ----- the table as the map the sync logic works on ------------------------------------

  ghost function Macs(objs: map<Handle, Filter>): Filters
    requires Unique(objs)
  {
    map h | h in objs && objs[h].what.Addr? :: objs[h].what.mac := Entry(objs[h].phase, objs[h].id)
  }

  /** Finding an address in the table is finding it in the map, with its state and id. */
  lemma FindsIsLookup(objs: map<Handle, Filter>, mac: Mac, found: Option<Handle>)
    requires Unique(objs) && Finds(objs, Addr(mac), found)
    ensures found.Some? <==> mac in Macs(objs)
    ensures found.Some? ==> Macs(objs)[mac] == Entry(objs[found.value].phase, objs[found.value].id)
  {
  }

  /** What the map holds for an address is what its filter holds. */
  lemma MacsAt(objs: map<Handle, Filter>, h: Handle)
    requires Unique(objs) && h in objs && objs[h].what.Addr?
    ensures objs[h].what.mac in Macs(objs)
    ensures Macs(objs)[objs[h].what.mac] == Entry(objs[h].phase, objs[h].id)
  {
  }

  /** Every address in the map has a filter. */
  lemma MacsFrom(objs: map<Handle, Filter>, mac: Mac) returns (h: Handle)
    requires Unique(objs) && mac in Macs(objs)
    ensures h in objs && objs[h].what == Addr(mac)
  {
    h :| h in objs && objs[h].what == Addr(mac);
  }

  /** Storing a filter for an address, new or refreshed, is a map update. */
  lemma StoreIsUpdate(objs: map<Handle, Filter>, h: Handle, f: Filter)
    requires f.what.Addr? && Unique(objs) && Unique(objs[h := f])
    requires h in objs ==> objs[h].what == f.what
    ensures Macs(objs[h := f]) == Macs(objs)[f.what.mac := Entry(f.phase, f.id)]
  {
    var objs' := objs[h := f];
    MacsAt(objs', h);
    forall mac | mac in Macs(objs')
      ensures mac in Macs(objs)[f.what.mac := Entry(f.phase, f.id)]
      ensures Macs(objs')[mac] == Macs(objs)[f.what.mac := Entry(f.phase, f.id)][mac]
    {
      var k := MacsFrom(objs', mac);
      if k != h {
        MacsAt(objs, k);
      }
    }
    forall mac | mac in Macs(objs)
      ensures mac in Macs(objs')
    {
      var k := MacsFrom(objs, mac);
      if k != h {
        MacsAt(objs', k);
      }
    }
  }

  /** Freeing it is a map removal. */
  lemma DropIsRemoval(objs: map<Handle, Filter>, h: Handle)
    requires Unique(objs) && h in objs && objs[h].what.Addr?
    ensures Macs(objs - {h}) == Macs(objs) - {objs[h].what.mac}
  {
    var objs' := objs - {h};
    forall mac | mac in Macs(objs')
      ensures mac in Macs(objs) - {objs[h].what.mac} && Macs(objs')[mac] == Macs(objs)[mac]
    {
      var k := MacsFrom(objs', mac);
      MacsAt(objs, k);
    }
    forall mac | mac in Macs(objs) && mac != objs[h].what.mac
      ensures mac in Macs(objs')
    {
      var k := MacsFrom(objs, mac);
      MacsAt(objs', k);
    }
  }
}

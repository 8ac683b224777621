/**
  The filter table updated in place: lookups in one bucket, save, free and the
  replay after a firmware restart.
 */
module FilterTable {
  import opened Common
  import opened FilterBuckets
  import opened FilterSpec
  import opened FilterIndex
  import opened FilterReplay

  datatype Error = Ok | EInval | ENoMem

  class RxFilters {
    var byHash: Buckets
    var byId: Buckets
    var objs: map<Handle, Filter>
    /** every handle from here on is unused: the next allocation */
    var brk: nat

    ghost function Abs(): Table
      reads this
    {
      Table(byHash, byId, objs)
    }

    ghost predicate Valid()
      reads this
    {
      Indexed(Abs()) && forall h :: h in objs ==> h < brk
    }

    /** ionic_rx_filters_init */
    constructor ()
      ensures Valid() && objs == map[]
    {
      byHash, byId := seq(HLISTS, _ => []), seq(HLISTS, _ => []);
      objs, brk := map[], 0;
      new;
      EmptyIndexes();
      assert HashSlots(objs) == map[] && IdSlots(objs) == map[];
    }

    /** The loop of ionic_rx_filter_by_vlan, ionic_rx_filter_by_addr and ionic_rx_filter_rxsteer: one bucket only */
    method Search(m: Match) returns (found: Option<Handle>)
      requires Valid()
      ensures Finds(objs, m, found)
    {
      var bucket := byHash[HashBucket(m)];
      var i := 0;
      while i < |bucket|
        invariant 0 <= i <= |bucket|
        invariant forall j :: 0 <= j < i ==> bucket[j] in objs && objs[bucket[j]].what != m
      {
        assert bucket[i] in HashSlots(objs);
        if objs[bucket[i]].what == m {
          return Some(bucket[i]);
        }
        i := i + 1;
      }
      forall h | h in objs
        ensures objs[h].what != m
      {
        InBucket(byHash, HashSlots(objs), h);
      }
      return None;
    }

    /** ionic_rx_filter_by_vlan */
    method ByVlan(vid: nat) returns (found: Option<Handle>)
      requires Valid()
      ensures Finds(objs, Vlan(vid), found)
    {
      found := Search(Vlan(vid));
    }

    /** ionic_rx_filter_by_addr */
    method ByAddr(mac: Mac) returns (found: Option<Handle>)
      requires Valid()
      ensures Finds(objs, Addr(mac), found)
      ensures found.Some? <==> mac in Macs(objs)
      ensures found.Some? ==> Macs(objs)[mac] == Entry(objs[found.value].phase, objs[found.value].id)
    {
      found := Search(Addr(mac));
      FindsIsLookup(objs, mac, found);
    }

    /** ionic_rx_filter_free */
    method Free(h: Handle)
      requires Valid() && h in objs
      modifies this`byHash, this`byId, this`objs
      ensures Valid() && Abs() == Drop(old(Abs()), h)
    {
      DropIndexed(Abs(), h);
      byId := Unlink(byId, h);
      byHash := Unlink(byHash, h);
      objs := objs - {h};
    }

    /** Linking filter h into both tables */
    method LinkBoth(h: Handle, f: Filter)
      requires |byHash| == |byId| == HLISTS
      modifies this`byHash, this`byId, this`objs
      ensures Abs() == Insert(old(Abs()), h, f)
    {
      objs := objs[h := f];
      var key := HashBucket(f.what);
      byHash := byHash[key := [h] + byHash[key]];
      key := IdBucket(f.id);
      byId := byId[key := [h] + byId[key]];
    }

    /** The branch of ionic_rx_filter_save that refreshes a stored filter */
    method Refresh(h: Handle, f: Filter)
      requires Valid() && h in objs && objs[h].what == f.what && Keyed(f.what)
      modifies this`byHash, this`byId, this`objs
      ensures Valid() && objs == old(objs)[h := f]
    {
      RefreshIndexed(Abs(), h, f);
      ghost var dropped := Drop(Abs(), h);
      byId, byHash := Unlink(byId, h), Unlink(byHash, h);
      objs := objs - {h};
      assert Abs() == dropped;
      LinkBoth(h, f);
    }

    /** The branch that stores a new filter */
    method Store(f: Filter) returns (h: Handle)
      requires Valid() && (Keyed(f.what) ==> Finds(objs, f.what, None))
      modifies this
      ensures Valid() && h !in old(objs) && objs == old(objs)[h := f]
    {
      h := brk;
      InsertIndexed(Abs(), h, f);
      LinkBoth(h, f);
      brk := brk + 1;
    }

    /**
      ionic_rx_filter_save: VLAN and MAC filters replace the stored one for the
      same id or address, others are always new.  `memory` says whether an
      allocation would succeed.
     */
    method Save(f: Filter, memory: bool) returns (err: Error, h: Handle)
      requires Valid()
      modifies this
      ensures Valid()
      ensures err == EInval <==> f.what.Unsupported?
      ensures err == ENoMem <==> !f.what.Unsupported? && !memory && (Keyed(f.what) ==> Finds(old(objs), f.what, None))
      ensures err != Ok ==> Abs() == old(Abs())
      ensures err == Ok ==> objs == old(objs)[h := f]
      ensures err == Ok ==> h !in old(objs) || (Keyed(f.what) && old(objs)[h].what == f.what)
      ensures err == Ok && f.what.Addr? ==>
                Macs(objs) == Macs(old(objs))[f.what.mac := Entry(f.phase, f.id)]
    {
      h := 0;
      var found: Option<Handle> := None;
      match f.what {
        case Vlan(vid) => found := ByVlan(vid);
        case Addr(mac) => found := ByAddr(mac);
        case MacVlan(_, _) =>
        case Steer =>
        case Unsupported(_) => return EInval, h;
      }
      if found.Some? {
        h := found.value;
        Refresh(h, f);
      } else {
        if !memory {
          return ENoMem, h;
        }
        h := Store(f);
      }
      if f.what.Addr? {
        StoreIsUpdate(old(objs), h, f);
      }
      return Ok, h;
    }

    /** One turn of the replay loop, for the first filter on by_id list b; returns whether firmware took it */
    method ReplayHead(b: nat, reply: Answers,
                      ghost objs0: map<Handle, Filter>, ghost posted: seq<Handle>, ghost kept: seq<Handle>)
      returns (h: Handle, ok: bool)
      requires b < |byId| && byId[b] != [] && Midway(objs0, Abs(), posted, kept, reply)
      modifies this`byHash, this`byId, this`objs
      ensures h == old(byId)[b][0] && h !in posted && ok == reply(h).Some?
      ensures Midway(objs0, Abs(), [h] + posted, if ok then [h] + kept else kept, reply)
      ensures byId == old(byId)[b := old(byId)[b][1..]]
    {
      h := byId[b][0];
      assert h in byId[b];
      assert h in Pending(objs0, posted);
      OnlyFirst(byId, IdSlots(Pending(objs0, posted)), b);
      ok := reply(h).Some?;
      if !ok {
        ReplayRefused(objs0, Abs(), posted, kept, reply, h);
        byId, byHash := Unlink(byId, h), Unlink(byHash, h);
        objs := objs - {h};
      } else {
        ReplayAccepted(objs0, Abs(), posted, kept, reply, h);
        byId := Unlink(byId, h);
        objs := objs[h := objs[h].(id := reply(h).value)];
      }
    }

    /** The replay of one by_id list */
    method ReplayList(b: nat, reply: Answers,
                      ghost objs0: map<Handle, Filter>, posted0: seq<Handle>, kept0: seq<Handle>)
      returns (posted: seq<Handle>, kept: seq<Handle>)
      requires b < |byId| && Midway(objs0, Abs(), posted0, kept0, reply)
      modifies this`byHash, this`byId, this`objs
      ensures Midway(objs0, Abs(), posted, kept, reply) && byId == old(byId)[b := []]
    {
      posted, kept := posted0, kept0;
      while byId[b] != []
        invariant |byId| == |old(byId)| && Midway(objs0, Abs(), posted, kept, reply)
        invariant byId == old(byId)[b := byId[b]]
        decreases |byId[b]|
      {
        var h, ok := ReplayHead(b, reply, objs0, posted, kept);
        posted := [h] + posted;
        if ok {
          kept := [h] + kept;
        }
      }
    }

    /** The replay loop over all by_id lists */
    method ReplayAll(reply: Answers) returns (posted: seq<Handle>, kept: seq<Handle>)
      requires Valid()
      modifies this`byHash, this`byId, this`objs
      ensures Midway(old(objs), Abs(), posted, kept, reply)
      ensures forall b :: 0 <= b < |byId| ==> byId[b] == []
    {
      ReplayStarts(Abs(), reply);
      posted, kept := [], [];
      var i := 0;
      while i < |byId|
        invariant 0 <= i <= |byId| && Midway(old(objs), Abs(), posted, kept, reply)
        invariant forall b :: 0 <= b < i ==> byId[b] == []
      {
        posted, kept := ReplayList(i, reply, old(objs), posted, kept);
        i := i + 1;
      }
    }

    /** Rebuilding by_id from the temporary list */
    method Rebuild(kept: seq<Handle>)
      requires Indexes(byId, IdSlots(Only(objs, []))) && NoDup(kept) && forall h :: h in kept ==> h in objs
      modifies this`byId
      ensures Indexes(byId, IdSlots(Only(objs, kept)))
    {
      var i := 0;
      assert kept[..0] == [];
      while i < |kept|
        invariant 0 <= i <= |kept| && Indexes(byId, IdSlots(Only(objs, kept[..i])))
      {
        var h := kept[i];
        FirstSeen(kept, i);
        Relinked(objs, byId, kept[..i], h);
        assert kept[..i] + [h] == kept[..i + 1];
        byId := Link(byId, IdBucket(objs[h].id), h);
        i := i + 1;
      }
      assert kept[..i] == kept;
    }

    /**
      ionic_rx_filter_replay: every stored filter is posted once, exactly those
      firmware takes stay, under their new ids, and both tables index them.
     */
    method Replay(reply: Answers) returns (posted: seq<Handle>)
      requires Valid()
      modifies this`byHash, this`byId, this`objs
      ensures Valid()
      ensures NoDup(posted) && forall h :: h in posted <==> h in old(objs)
      ensures objs == map h | h in old(objs) && reply(h).Some? :: old(objs)[h].(id := reply(h).value)
    {
      var kept;
      posted, kept := ReplayAll(reply);
      ReplayEnds(old(objs), Abs(), posted, kept, reply);
      Rebuild(kept);
      ReplayIndexed(old(objs), Abs(), kept, reply);
    }
  }
}

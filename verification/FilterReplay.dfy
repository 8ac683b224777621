/**
  ionic_rx_filter_replay on values: after a firmware restart every stored filter
  is posted again, refused ones are freed, and accepted ones move to the by_id
  bucket of their new id.
 */
module FilterReplay {
  import opened Common
  import opened FilterBuckets
  import opened FilterIndex

  /** Firmware's answer to the replay of a filter: its new id, or an error. */
  type Answers = Handle -> Option<nat>

  /** The filters once those in `posted` have been replayed. */
  function Replayed(objs: map<Handle, Filter>, posted: seq<Handle>, reply: Answers): map<Handle, Filter> {
    map h | h in objs && (h !in posted || reply(h).Some?) ::
      if h in posted then objs[h].(id := reply(h).value) else objs[h]
  }

  /** The filters still to be replayed. */
  function Pending(objs: map<Handle, Filter>, posted: seq<Handle>): map<Handle, Filter> {
    map h | h in objs && h !in posted :: objs[h]
  }

  /** Those among the first table's filters that `kept` lists. */
  function Only(objs: map<Handle, Filter>, kept: seq<Handle>): map<Handle, Filter> {
    map h | h in objs && h in kept :: objs[h]
  }

  /**
    In the middle of a replay of `objs`: by_hash indexes what is stored, by_id
    what is still to be replayed, and the temporary list holds what was accepted.
   */
  ghost predicate Midway(objs: map<Handle, Filter>, t: Table, posted: seq<Handle>, kept: seq<Handle>, reply: Answers) {
    && t.objs == Replayed(objs, posted, reply)
    && Indexes(t.byHash, HashSlots(t.objs))
    && Indexes(t.byId, IdSlots(Pending(objs, posted)))
    && NoDup(posted) && (forall h :: h in posted ==> h in objs)
    && NoDup(kept) && (forall h :: h in kept <==> h in posted && reply(h).Some?)
  }

  lemma ReplayStarts(t: Table, reply: Answers)
    requires Indexed(t)
    ensures Midway(t.objs, t, [], [], reply)
  {
    assert Replayed(t.objs, [], reply) == t.objs;
    assert Pending(t.objs, []) == t.objs;
  }

  lemma PostedMore(objs: map<Handle, Filter>, posted: seq<Handle>, h: Handle)
    requires NoDup(posted) && h !in posted && h in objs
    ensures NoDup([h] + posted)
    ensures IdSlots(Pending(objs, [h] + posted)) == IdSlots(Pending(objs, posted)) - {h}
  {
    assert ([h] + posted)[1..] == posted;
  }

  /** A refused filter is freed. */
  lemma ReplayRefused(objs: map<Handle, Filter>, t: Table, posted: seq<Handle>, kept: seq<Handle>,
                      reply: Answers, h: Handle)
    requires Midway(objs, t, posted, kept, reply) && h in objs && h !in posted && reply(h) == None
    ensures Midway(objs, Drop(t, h), [h] + posted, kept, reply)
  {
    PostedMore(objs, posted, h);
    UnlinkIndexes(t.byHash, HashSlots(t.objs), h);
    UnlinkIndexes(t.byId, IdSlots(Pending(objs, posted)), h);
    SlotsWithout(t.objs, h);
    RefusedGoes(objs, posted, reply, h);
  }

  lemma RefusedGoes(objs: map<Handle, Filter>, posted: seq<Handle>, reply: Answers, h: Handle)
    requires h in objs && h !in posted && reply(h) == None
    ensures Replayed(objs, [h] + posted, reply) == Replayed(objs, posted, reply) - {h}
  {
  }

  /** An accepted one gets its new id and waits on the temporary list. */
  function Accept(t: Table, h: Handle, id: nat): Table
    requires h in t.objs
  {
    Table(t.byHash, Unlink(t.byId, h), t.objs[h := t.objs[h].(id := id)])
  }

  lemma ReplayAccepted(objs: map<Handle, Filter>, t: Table, posted: seq<Handle>, kept: seq<Handle>,
                       reply: Answers, h: Handle)
    requires Midway(objs, t, posted, kept, reply) && h in objs && h !in posted && reply(h).Some?
    ensures h in t.objs && Midway(objs, Accept(t, h, reply(h).value), [h] + posted, [h] + kept, reply)
  {
    PostedMore(objs, posted, h);
    UnlinkIndexes(t.byId, IdSlots(Pending(objs, posted)), h);
    var f := t.objs[h].(id := reply(h).value);
    assert HashSlots(t.objs[h := f]) == HashSlots(t.objs);
    assert Replayed(objs, [h] + posted, reply) == t.objs[h := f];
    assert ([h] + kept)[1..] == kept;
  }

  /** When every by_id bucket has been emptied, every filter has been posted, once. */
  lemma ReplayEnds(objs: map<Handle, Filter>, t: Table, posted: seq<Handle>, kept: seq<Handle>, reply: Answers)
    requires Midway(objs, t, posted, kept, reply) && forall b :: 0 <= b < |t.byId| ==> t.byId[b] == []
    ensures forall h :: h in posted <==> h in objs
    ensures t.objs == map h | h in objs && reply(h).Some? :: objs[h].(id := reply(h).value)
    ensures forall h :: h in kept <==> h in t.objs
    ensures Indexes(t.byId, IdSlots(Only(t.objs, [])))
  {
    AllEmpty(t.byId, IdSlots(Pending(objs, posted)));
    forall h | h in objs
      ensures h in posted
    {
      assert h !in IdSlots(Pending(objs, posted)).Keys;
    }
    assert IdSlots(Only(t.objs, [])) == map[] == IdSlots(Pending(objs, posted));
  }

  /** Relinking one filter of the temporary list by its new id. */
  lemma Relinked(objs: map<Handle, Filter>, byId: Buckets, kept: seq<Handle>, h: Handle)
    requires Indexes(byId, IdSlots(Only(objs, kept))) && h in objs && h !in kept
    ensures Indexes(Link(byId, IdBucket(objs[h].id), h), IdSlots(Only(objs, kept + [h])))
  {
    LinkIndexes(byId, IdSlots(Only(objs, kept)), IdBucket(objs[h].id), h);
    assert IdSlots(Only(objs, kept + [h])) == IdSlots(Only(objs, kept))[h := IdBucket(objs[h].id)];
  }

  /** Replay leaves a table in step: ids and buckets are new, the uniqueness of addresses is not touched. */
  lemma ReplayIndexed(objs: map<Handle, Filter>, t: Table, kept: seq<Handle>, reply: Answers)
    requires Unique(objs) && Indexes(t.byHash, HashSlots(t.objs)) && Indexes(t.byId, IdSlots(Only(t.objs, kept)))
    requires t.objs == map h | h in objs && reply(h).Some? :: objs[h].(id := reply(h).value)
    requires forall h :: h in kept <==> h in t.objs
    ensures Indexed(t)
  {
    assert Only(t.objs, kept) == t.objs;
  }
}

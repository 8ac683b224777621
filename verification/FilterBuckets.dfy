/**
  A hash table of filter handles: an array of bucket lists, and what it means
  that the buckets index a set of handles.
 */
module FilterBuckets {

  type Handle = nat

  const HLISTS := 1024

  type Buckets = seq<seq<Handle>>

  predicate NoDup(s: seq<Handle>) {
    s == [] || (s[0] !in s[1..] && NoDup(s[1..]))
  }

  /** hlist_del on one list: the handle goes, the others stay in order. */
  function Without(s: seq<Handle>, h: Handle): seq<Handle> {
    if s == [] then [] else (if s[0] == h then [] else [s[0]]) + Without(s[1..], h)
  }

  /** hlist_del: an intrusive node leaves whichever list it is on. */
  function Unlink(t: Buckets, h: Handle): Buckets {
    seq(|t|, b requires 0 <= b < |t| => Without(t[b], h))
  }

  /** hlist_add_head */
  function Link(t: Buckets, b: nat, h: Handle): Buckets
    requires b < |t|
  {
    t[b := [h] + t[b]]
  }

  /** Each handle of `slot` is in its bucket, once, and nothing else is in any bucket. */
  ghost predicate Indexes(t: Buckets, slot: map<Handle, nat>) {
    && |t| == HLISTS
    && (forall h :: h in slot ==> slot[h] < HLISTS)
    && (forall b, h :: 0 <= b < |t| ==> (h in t[b] <==> h in slot && slot[h] == b))
    && (forall b :: 0 <= b < |t| ==> NoDup(t[b]))
  }

  lemma {:induction false} WithoutExact(s: seq<Handle>, h: Handle)
    requires NoDup(s)
    ensures NoDup(Without(s, h))
    ensures forall k :: k in Without(s, h) <==> k in s && k != h
  {
    if s != [] {
      WithoutExact(s[1..], h);
      assert forall k :: k in s <==> k == s[0] || k in s[1..];
      if s[0] != h {
        assert Without(s, h)[1..] == Without(s[1..], h);
      } else {
        assert Without(s, h) == Without(s[1..], h);
      }
    }
  }

  lemma UnlinkIndexes(t: Buckets, slot: map<Handle, nat>, h: Handle)
    requires Indexes(t, slot)
    ensures Indexes(Unlink(t, h), slot - {h})
  {
    forall b | 0 <= b < |t|
      ensures NoDup(Unlink(t, h)[b]) && forall k :: k in Unlink(t, h)[b] <==> k in t[b] && k != h
    {
      WithoutExact(t[b], h);
    }
  }

  lemma LinkIndexes(t: Buckets, slot: map<Handle, nat>, b: nat, h: Handle)
    requires Indexes(t, slot) && b < HLISTS && h !in slot
    ensures Indexes(Link(t, b, h), slot[h := b])
  {
    var t' := Link(t, b, h);
    assert t'[b][1..] == t[b];
    assert forall k :: k in t'[b] <==> k == h || k in t[b];
  }

  /** INIT_HLIST_HEAD on every bucket */
  lemma EmptyIndexes()
    ensures Indexes(seq(HLISTS, _ => []), map[])
  {
  }

  lemma InBucket(t: Buckets, slot: map<Handle, nat>, h: Handle)
    requires Indexes(t, slot) && h in slot
    ensures slot[h] < |t| && h in t[slot[h]]
  {
  }

  /** Empty buckets index nothing. */
  lemma AllEmpty(t: Buckets, slot: map<Handle, nat>)
    requires Indexes(t, slot) && forall b :: 0 <= b < |t| ==> t[b] == []
    ensures slot.Keys == {}
  {
    forall h
      ensures h !in slot
    {
      if h in slot {
        InBucket(t, slot, h);
      }
    }
  }

  lemma {:induction false} WithoutAbsent(s: seq<Handle>, h: Handle)
    requires h !in s
    ensures Without(s, h) == s
  {
    if s != [] {
      WithoutAbsent(s[1..], h);
    }
  }

  /** Unlinking the first handle of a bucket takes it off that list and touches no other. */
  lemma OnlyFirst(t: Buckets, slot: map<Handle, nat>, b: nat)
    requires Indexes(t, slot) && b < |t| && t[b] != []
    ensures Unlink(t, t[b][0]) == t[b := t[b][1..]]
  {
    var h := t[b][0];
    assert h in t[b];
    assert slot[h] == b;
    forall k | 0 <= k < |t|
      ensures Without(t[k], h) == if k == b then t[b][1..] else t[k]
    {
      if k == b {
        WithoutAbsent(t[b][1..], h);
      } else {
        WithoutAbsent(t[k], h);
      }
    }
  }

  /** In a list without duplicates an element does not occur before itself. */
  lemma {:induction false} FirstSeen(s: seq<Handle>, i: nat)
    requires NoDup(s) && i < |s|
    ensures s[i] !in s[..i]
  {
    if i > 0 {
      FirstSeen(s[1..], i - 1);
      assert s[i] in s[1..];
      assert s[..i] == [s[0]] + s[1..][..i - 1];
    }
  }
}

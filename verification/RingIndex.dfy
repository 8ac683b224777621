/**
  Index arithmetic of the power-of-two descriptor and completion rings.

  The driver keeps wrapped indices.  Every proof about a ring relates them to
  absolute counts ("the 17th descriptor ever posted"): the wrapped index of
  count `a` in a ring of `n` slots is `Slot(a, n)`.
 */
module RingIndex {

  /** ionic_cq_init and ionic_q_init accept ring sizes 2^2 .. 2^16. */
  ghost predicate RingSize(n: nat) {
    4 <= n <= 0x1_0000
  }

  /** `(i + 1) & (num_descs - 1)` on an index already inside the ring. */
  function Next(i: nat, n: nat): nat {
    if i + 1 == n then 0 else i + 1
  }

  /** The wrapped index of absolute count `a`: its remainder, by repeated subtraction. */
  function Slot(a: nat, n: nat): (i: nat)
    requires n > 0
    ensures i < n
  {
    if a < n then a else Slot(a - n, n)
  }

  /** ionic_q_space_avail, on the wrapped indices it really reads. */
  function SpaceAvail(head: nat, tail: nat, n: nat): (avail: nat)
    requires head < n && tail < n
  {
    if head >= tail then tail + (n - head - 1) else tail - (head + 1)
  }

  /** ionic_q_has_space */
  predicate HasSpace(head: nat, tail: nat, n: nat, want: nat)
    requires head < n && tail < n
  {
    SpaceAvail(head, tail, n) >= want
  }

  /** The masking the C code does is the wrap `Next` does, for every power-of-two size. */
  lemma MaskIsWrap(i: bv32, n: bv32)
    requires n != 0 && n & (n - 1) == 0
    requires i < n
    ensures (i + 1) & (n - 1) == if i + 1 == n then 0 else i + 1
  {
  }

  /** The index of the next count is the wrapped successor. */
  lemma {:induction false} SlotNext(a: nat, n: nat)
    requires n > 0
    ensures Slot(a + 1, n) == Next(Slot(a, n), n)
  {
    if a >= n {
      SlotNext(a - n, n);
    }
  }

  /** Distance between two counts, recovered from their slots. */
  lemma {:induction false} SlotDistance(a: nat, b: nat, n: nat)
    requires n > 0
    requires a <= b < a + n
    ensures b - a == if Slot(b, n) >= Slot(a, n) then Slot(b, n) - Slot(a, n) else Slot(b, n) + n - Slot(a, n)
  {
    if a >= n {
      SlotDistance(a - n, b - n, n);
    }
  }

  /** Counts less than a ring apart share a slot only when they are equal. */
  lemma SlotInjective(a: nat, b: nat, n: nat)
    requires n > 0
    requires a <= b < a + n
    requires Slot(a, n) == Slot(b, n)
    ensures a == b
  {
    SlotDistance(a, b, n);
  }

  /**
    What ionic_q_space_avail means: with `posted - cleaned` descriptors in the
    ring it reports exactly the slots that can still be posted while keeping
    one slot free, the slot that tells a full ring from an empty one.
   */
  lemma SpaceAvailExact(posted: nat, cleaned: nat, n: nat)
    requires n > 0
    requires cleaned <= posted < cleaned + n
    ensures SpaceAvail(Slot(posted, n), Slot(cleaned, n), n) == n - 1 - (posted - cleaned)
  {
    SlotDistance(cleaned, posted, n);
  }

  /** The two indices coincide exactly when the ring is empty. */
  lemma EmptyExact(posted: nat, cleaned: nat, n: nat)
    requires n > 0
    requires cleaned <= posted < cleaned + n
    ensures Slot(posted, n) == Slot(cleaned, n) <==> posted == cleaned
  {
    SlotDistance(cleaned, posted, n);
  }

  /** A granted space check keeps the head from catching the tail however the `want` slots are filled. */
  lemma GrantedSpaceKeepsGap(posted: nat, cleaned: nat, n: nat, want: nat)
    requires n > 0
    requires cleaned <= posted < cleaned + n
    ensures HasSpace(Slot(posted, n), Slot(cleaned, n), n, want) <==> posted + want < cleaned + n
  {
    SpaceAvailExact(posted, cleaned, n);
  }
}

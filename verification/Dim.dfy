/**
  Dynamic interrupt moderation: the tuning state machine as functions on the
  tuning state, and what holds over every stream of measurements.
 */
module DimSpec {

  const NUM_PROFILES := 5
  const MAX_TIRED := 10   // NET_DIM_PARAMS_NUM_PROFILES * 2
  const NEVENTS := 64

  datatype Tune = ParkingOnTop | ParkingTired | GoingRight | GoingLeft

  /** A C int. */
  type int32 = x: int | -0x8000_0000 <= x < 0x8000_0000

  /** Rates per millisecond: packets, bytes, events. */
  datatype Stats = Stats(ppms: int32, bpms: int32, epms: int32)

  datatype Tuning = Tuning(tune: Tune, profileIx: nat, stepsRight: nat, stepsLeft: nat, tired: nat, prev: Stats)

  datatype Compared = Worse | Same | Better
  datatype StepResult = Stepped | TooTired | OnEdge

  const ZEROED := Tuning(ParkingOnTop, 0, 0, 0, 0, Stats(0, 0, 0))

  function Abs(x: int): nat {
    if x < 0 then -x else x
  }

  /** A C int taken as an unsigned long. */
  function AsULong(x: int32): nat {
    if x < 0 then x + 0x1_0000_0000_0000_0000 else x
  }

  /** IS_SIGNIFICANT_DIFF: more than ten percent of the reference. */
  predicate Significant(val: int32, ref: int32)
    requires ref != 0
  {
    100 * Abs(val - ref) / AsULong(ref) > 10
  }

  /** net_dim_stats_compare: bytes first, then packets, then events, where fewer are better. */
  function Compare(curr: Stats, prev: Stats): Compared {
    if prev.bpms == 0 then (if curr.bpms != 0 then Better else Same)
    else if Significant(curr.bpms, prev.bpms) then (if curr.bpms > prev.bpms then Better else Worse)
    else if prev.ppms == 0 then (if curr.ppms != 0 then Better else Same)
    else if Significant(curr.ppms, prev.ppms) then (if curr.ppms > prev.ppms then Better else Worse)
    else if prev.epms == 0 then Same
    else if Significant(curr.epms, prev.epms) then (if curr.epms < prev.epms then Better else Worse)
    else Same
  }

  predicate Going(d: Tuning) {
    d.tune == GoingRight || d.tune == GoingLeft
  }

  /** dim_on_top */
  predicate OnTop(d: Tuning) {
    match d.tune
    case ParkingOnTop => true
    case ParkingTired => true
    case GoingRight => d.stepsLeft > 1 && d.stepsRight == 1
    case GoingLeft => d.stepsRight > 1 && d.stepsLeft == 1
  }

  function Turned(d: Tuning): Tuning {
    match d.tune
    case GoingRight => d.(tune := GoingLeft, stepsLeft := 0)
    case GoingLeft => d.(tune := GoingRight, stepsRight := 0)
    case _ => d
  }

  function ParkedOnTop(d: Tuning): Tuning {
    d.(stepsRight := 0, stepsLeft := 0, tired := 0, tune := ParkingOnTop)
  }

  function ParkedTired(d: Tuning): Tuning {
    d.(stepsRight := 0, stepsLeft := 0, tune := ParkingTired)
  }

  function StepOutcome(d: Tuning): StepResult {
    if d.tired == MAX_TIRED then TooTired
    else if d.tune == GoingRight && d.profileIx == NUM_PROFILES - 1 then OnEdge
    else if d.tune == GoingLeft && d.profileIx == 0 then OnEdge
    else Stepped
  }

  /** net_dim_step */
  function AfterStep(d: Tuning): Tuning {
    if StepOutcome(d) != Stepped then d
    else match d.tune
      case GoingRight => d.(profileIx := d.profileIx + 1, stepsRight := d.stepsRight + 1, tired := d.tired + 1)
      case GoingLeft =>
        if d.profileIx == 0 then d
        else d.(profileIx := d.profileIx - 1, stepsLeft := d.stepsLeft + 1, tired := d.tired + 1)
      case _ => d.(tired := d.tired + 1)
  }

  /** net_dim_exit_parking */
  function Unparked(d: Tuning): Tuning {
    AfterStep(d.(tune := if d.profileIx != 0 then GoingLeft else GoingRight))
  }

  /** The search arm of net_dim_decision. */
  function AfterSearch(d: Tuning, better: bool): Tuning {
    var t := if better then d else Turned(d);
    if OnTop(t) then ParkedOnTop(t)
    else match StepOutcome(t)
      case Stepped => AfterStep(t)
      case OnEdge => ParkedOnTop(t)
      case TooTired => ParkedTired(t)
  }

  /** net_dim_decision without the bookkeeping of prev_stats. */
  function Decided(d: Tuning, curr: Stats): Tuning {
    match d.tune
    case ParkingOnTop => if Compare(curr, d.prev) != Same then Unparked(d) else d
    case ParkingTired =>
      if d.tired == 0 then d   // would wrap around; never reached
      else if d.tired - 1 == 0 then Unparked(d.(tired := 0)) else d.(tired := d.tired - 1)
    case GoingRight => AfterSearch(d, Compare(curr, d.prev) == Better)
    case GoingLeft => AfterSearch(d, Compare(curr, d.prev) == Better)
  }

  function Decision(d: Tuning, curr: Stats): Tuning {
    var d' := Decided(d, curr);
    if d.tune != ParkingOnTop || d'.tune != ParkingOnTop then d'.(prev := curr) else d'
  }

  // ----- what every decision keeps ------------------------------------------

  /**
    The profile index stays inside the profile table, no 8-bit counter
    overflows or underflows, and how tired the search is fits its state.
   */
  ghost predicate Inv(d: Tuning) {
    && d.profileIx < NUM_PROFILES
    && d.stepsRight <= d.tired && d.stepsLeft <= d.tired
    && d.tired <= MAX_TIRED
    && (d.tune == ParkingOnTop <==> d.tired == 0)
    && (d.tune == ParkingTired ==> d.stepsRight == 0 && d.stepsLeft == 0)
  }

  lemma DecisionKeepsInv(d: Tuning, curr: Stats)
    requires Inv(d)
    ensures Inv(Decision(d, curr))
    ensures Abs(Decision(d, curr).profileIx - d.profileIx) <= 1
  {
  }

  /** The state after a whole stream of measurements. */
  function Run(d: Tuning, stream: seq<Stats>): Tuning
    decreases |stream|
  {
    if stream == [] then d else Run(Decision(d, stream[0]), stream[1..])
  }

  lemma {:induction false} RunKeepsInv(d: Tuning, stream: seq<Stats>)
    requires Inv(d)
    ensures Inv(Run(d, stream))
    decreases |stream|
  {
    if stream != [] {
      DecisionKeepsInv(d, stream[0]);
      RunKeepsInv(Decision(d, stream[0]), stream[1..]);
    }
  }

  /** A search either parks or gets more tired, whatever is measured. */
  lemma SearchProgress(d: Tuning, curr: Stats)
    requires Inv(d) && Going(d)
    ensures var d' := Decision(d, curr);
            !Going(d') || (d'.tired == d.tired + 1)
  {
  }

  /**
    Every search parks: from a search that has taken `tired` steps, some
    decision within the next `11 - tired` parks it, for every measurement stream.
   */
  lemma {:induction false} SearchParks(d: Tuning, stream: seq<Stats>) returns (k: nat)
    requires Inv(d) && Going(d)
    requires |stream| >= MAX_TIRED + 1 - d.tired
    ensures 1 <= k <= MAX_TIRED + 1 - d.tired <= MAX_TIRED
    ensures !Going(Run(d, stream[..k]))
    decreases MAX_TIRED - d.tired
  {
    var d' := Decision(d, stream[0]);
    DecisionKeepsInv(d, stream[0]);
    SearchProgress(d, stream[0]);
    if Going(d') {
      var k' := SearchParks(d', stream[1..]);
      k := k' + 1;
      assert stream[..k][1..] == stream[1..][..k'];
    } else {
      k := 1;
      assert stream[..1][1..] == [];
    }
  }

  /** One decision while parked tired only counts down, until the last one starts a new search. */
  lemma TiredProgress(d: Tuning, curr: Stats)
    requires Inv(d) && d.tune == ParkingTired
    ensures var d' := Decision(d, curr);
            if d.tired > 1 then d'.tune == ParkingTired && d'.tired == d.tired - 1 && d'.profileIx == d.profileIx
            else Going(d')
  {
  }

  /**
    Tired parking ends after exactly its remaining count of decisions, whatever
    is measured: before that it is still parked on the same profile.
   */
  lemma {:induction false} TiredParkingEnds(d: Tuning, stream: seq<Stats>)
    requires Inv(d) && d.tune == ParkingTired
    requires |stream| <= d.tired
    ensures |stream| < d.tired ==> Run(d, stream).tune == ParkingTired && Run(d, stream).profileIx == d.profileIx
    ensures |stream| == d.tired ==> Going(Run(d, stream))
    decreases |stream|
  {
    if stream != [] {
      DecisionKeepsInv(d, stream[0]);
      TiredProgress(d, stream[0]);
      if d.tired > 1 {
        TiredParkingEnds(Decision(d, stream[0]), stream[1..]);
      } else {
        assert stream[1..] == [];
      }
    }
  }

  // ----- the search climbs ----------------------------------------------------

  /** Each measurement is better than the one before. */
  ghost predicate Improving(prev: Stats, stream: seq<Stats>)
    decreases |stream|
  {
    stream == [] || (Compare(stream[0], prev) == Better && Improving(stream[0], stream[1..]))
  }

  function Ahead(d: Tuning): int {
    if d.tune == GoingRight then NUM_PROFILES - 1 - d.profileIx else d.profileIx
  }

  /**
    While every measurement improves, a search that has not turned back goes on
    in its direction to the end of the profile table and parks there.
   */
  lemma {:induction false} ImprovementReachesEdge(d: Tuning, stream: seq<Stats>)
    requires Inv(d) && Going(d) && Improving(d.prev, stream)
    requires if d.tune == GoingRight then d.stepsLeft <= 1 else d.stepsRight <= 1
    requires d.tired + Ahead(d) < MAX_TIRED && |stream| == Ahead(d) + 1
    ensures Run(d, stream).tune == ParkingOnTop
    ensures Run(d, stream).profileIx == if d.tune == GoingRight then NUM_PROFILES - 1 else 0
    decreases |stream|
  {
    var d' := Decision(d, stream[0]);
    DecisionKeepsInv(d, stream[0]);
    assert d'.prev == stream[0];
    if Ahead(d) > 0 {
      assert d'.tune == d.tune && Ahead(d') == Ahead(d) - 1;
      ImprovementReachesEdge(d', stream[1..]);
    } else {
      assert stream[1..] == [];
      assert d'.tune == ParkingOnTop;
    }
  }

  /** A search that overshoots a peak steps back onto it and, when that is better, parks there. */
  lemma PeakIsKept(d: Tuning, past: Stats, back: Stats)
    requires Inv(d) && Going(d) && d.tired < MAX_TIRED
    requires Compare(past, d.prev) != Better && Compare(back, past) == Better
    requires if d.tune == GoingRight then d.stepsRight > 1 else d.stepsLeft > 1
    requires if d.tune == GoingRight then d.profileIx > 0 else d.profileIx < NUM_PROFILES - 1
    ensures var d' := Run(d, [past, back]);
            && d'.tune == ParkingOnTop
            && d'.profileIx == if d.tune == GoingRight then d.profileIx - 1 else d.profileIx + 1
  {
    var d1 := Decision(d, past);
    var d2 := Decision(d1, back);
    assert [past, back][1..] == [back] && [back][1..] == [];
    assert Run(d, [past, back]) == Run(d1, [back]) == Run(d2, []);
  }

  // ----- what is compared, and against what --------------------------------------

  /** At least eleven percent more, or less, than the reference. */
  predicate More(val: int, ref: int) {
    100 * val >= 111 * ref
  }

  predicate Less(val: int, ref: int) {
    100 * val <= 89 * ref
  }

  lemma PercentExact(d: nat, ref: nat)
    requires ref > 0
    ensures 100 * d / ref > 10 <==> 100 * d >= 11 * ref
  {
    var q, r := 100 * d / ref, 100 * d % ref;
    assert 100 * d == q * ref + r;
    if q >= 11 {
      assert q * ref >= 11 * ref;
    } else {
      assert q * ref <= 10 * ref;
    }
  }

  lemma SignificantIs(val: int32, ref: int32)
    requires val >= 0 && ref > 0
    ensures Significant(val, ref) <==> More(val, ref) || Less(val, ref)
    ensures Significant(val, ref) ==> (val > ref <==> More(val, ref)) && (val < ref <==> Less(val, ref))
  {
    PercentExact(Abs(val - ref), ref);
  }

  /**
    What net_dim_stats_compare prefers: more bytes; failing a difference there,
    more packets; failing that too, fewer events.  Differences count from eleven
    percent on.
   */
  lemma CompareOrder(curr: Stats, prev: Stats)
    requires curr.bpms >= 0 && curr.ppms >= 0 && curr.epms >= 0
    requires prev.bpms > 0 && prev.ppms > 0 && prev.epms > 0
    ensures Compare(curr, prev) ==
            if More(curr.bpms, prev.bpms) then Better
            else if Less(curr.bpms, prev.bpms) then Worse
            else if More(curr.ppms, prev.ppms) then Better
            else if Less(curr.ppms, prev.ppms) then Worse
            else if Less(curr.epms, prev.epms) then Better
            else if More(curr.epms, prev.epms) then Worse
            else Same
  {
    SignificantIs(curr.bpms, prev.bpms);
    SignificantIs(curr.ppms, prev.ppms);
    SignificantIs(curr.epms, prev.epms);
  }

  /** After a stretch without traffic any traffic is better, and none is no change. */
  lemma CompareFromIdle(curr: Stats, prev: Stats)
    requires prev.bpms == 0
    ensures Compare(curr, prev) == Better <==> curr.bpms != 0
    ensures Compare(curr, prev) == Same <==> curr.bpms == 0
  {
  }

  /**
    A search that has taken all its steps and is not on top parks tired on its
    profile, for ten decisions; one that is on top parks there until things change.
   */
  lemma ExhaustedSearch(d: Tuning, curr: Stats)
    requires Inv(d) && Going(d) && d.tired == MAX_TIRED
    ensures var t := if Compare(curr, d.prev) == Better then d else Turned(d);
            Decision(d, curr) ==
            Tuning(if OnTop(t) then ParkingOnTop else ParkingTired, d.profileIx, 0, 0,
                   if OnTop(t) then 0 else MAX_TIRED, curr)
  {
  }

  /**
    Parked on top, every measurement is compared with the one at parking: as long
    as none differs nothing changes, and the first that does starts a new search,
    towards the lower profiles unless already at the lowest.
   */
  lemma {:induction false} ParkedUntilChange(d: Tuning, stream: seq<Stats>, last: Stats)
    requires Inv(d) && d.tune == ParkingOnTop
    requires forall i :: 0 <= i < |stream| ==> Compare(stream[i], d.prev) == Same
    ensures Run(d, stream) == d
    ensures Compare(last, d.prev) != Same ==>
              var d' := Decision(d, last);
              && Going(d') && d'.prev == last
              && d'.profileIx == if d.profileIx != 0 then d.profileIx - 1 else 1
    decreases |stream|
  {
    if stream != [] {
      assert Decision(d, stream[0]) == d;
      ParkedUntilChange(d, stream[1..], last);
    }
  }

  /** From a zeroed instance, every stream keeps the profile index and the tired counter in range. */
  lemma EveryStream(stream: seq<Stats>)
    ensures Inv(ZEROED)
    ensures Run(ZEROED, stream).profileIx <= 4 && Run(ZEROED, stream).tired <= 10
  {
    RunKeepsInv(ZEROED, stream);
  }
}

/** struct dim and the code that updates it, with the worker that applies a new profile. */
module Dim {
  import opened Common
  import opened DimSpec

  datatype MeasureState = StartMeasure | MeasureInProgress | ApplyNewProfile

  /** Events counted between two readings of a 16-bit counter, which may have wrapped once. */
  function Elapsed(start: nat, end: nat): int {
    if end >= start then end - start else end + 0x1_0000 - start
  }

  class Dim {
    var state: MeasureState
    var tune: Tune
    var profileIx: nat
    var stepsRight: nat
    var stepsLeft: nat
    var tired: nat
    var prev: Stats
    var startEvents: nat
    /** The profile the worker last programmed into the hardware. */
    var applied: Option<nat>

    ghost function Tuned(): Tuning
      reads this
    {
      Tuning(tune, profileIx, stepsRight, stepsLeft, tired, prev)
    }

    /** Unless an apply is pending the hardware runs the current profile. */
    ghost predicate Valid()
      reads this
    {
      && Inv(Tuned())
      && startEvents < 0x1_0000
      && (state != ApplyNewProfile ==> applied == Some(profileIx) || (applied == None && profileIx == 0))
    }

    constructor ()
      ensures Valid() && Tuned() == ZEROED && state == StartMeasure && applied == None
    {
      state, tune := StartMeasure, ParkingOnTop;
      profileIx, stepsRight, stepsLeft, tired, startEvents := 0, 0, 0, 0, 0;
      prev, applied := Stats(0, 0, 0), None;
    }

    /** net_dim_step */
    method Step() returns (r: StepResult)
      modifies this`profileIx, this`stepsRight, this`stepsLeft, this`tired
      ensures r == StepOutcome(old(Tuned())) && Tuned() == AfterStep(old(Tuned()))
    {
      if tired == MAX_TIRED {
        return TooTired;
      }
      match tune {
        case ParkingOnTop =>
        case ParkingTired =>
        case GoingRight =>
          if profileIx == NUM_PROFILES - 1 {
            return OnEdge;
          }
          profileIx := profileIx + 1;
          stepsRight := stepsRight + 1;
        case GoingLeft =>
          if profileIx == 0 {
            return OnEdge;
          }
          profileIx := profileIx - 1;
          stepsLeft := stepsLeft + 1;
      }
      tired := tired + 1;
      return Stepped;
    }

    /** dim_turn */
    method Turn()
      modifies this`tune, this`stepsRight, this`stepsLeft
      ensures Tuned() == Turned(old(Tuned()))
    {
      match tune {
        case ParkingOnTop =>
        case ParkingTired =>
        case GoingRight =>
          tune := GoingLeft;
          stepsLeft := 0;
        case GoingLeft =>
          tune := GoingRight;
          stepsRight := 0;
      }
    }

    method ExitParking()
      modifies this`tune, this`profileIx, this`stepsRight, this`stepsLeft, this`tired
      ensures Tuned() == Unparked(old(Tuned()))
    {
      tune := if profileIx != 0 then GoingLeft else GoingRight;
      var r := Step();
    }

    method ParkOnTop()
      modifies this`tune, this`stepsRight, this`stepsLeft, this`tired
      ensures Tuned() == ParkedOnTop(old(Tuned()))
    {
      stepsRight, stepsLeft, tired, tune := 0, 0, 0, ParkingOnTop;
    }

    method ParkTired()
      modifies this`tune, this`stepsRight, this`stepsLeft
      ensures Tuned() == ParkedTired(old(Tuned()))
    {
      stepsRight, stepsLeft, tune := 0, 0, ParkingTired;
    }

    /** The search arm of net_dim_decision. */
    method Search(better: bool)
      modifies this`tune, this`profileIx, this`stepsRight, this`stepsLeft, this`tired
      ensures Tuned() == AfterSearch(old(Tuned()), better)
    {
      if !better {
        Turn();
      }
      var top := (tune == GoingRight && stepsLeft > 1 && stepsRight == 1)
              || (tune == GoingLeft && stepsRight > 1 && stepsLeft == 1)
              || tune == ParkingOnTop || tune == ParkingTired;
      if top {
        ParkOnTop();
      } else {
        var r := Step();
        match r {
          case Stepped =>
          case OnEdge => ParkOnTop();
          case TooTired => ParkTired();
        }
      }
    }

    /** net_dim_decision */
    method Decide(curr: Stats) returns (changed: bool)
      requires Inv(Tuned())
      modifies this`tune, this`profileIx, this`stepsRight, this`stepsLeft, this`tired, this`prev
      ensures Tuned() == Decision(old(Tuned()), curr) && Inv(Tuned())
      ensures changed <==> profileIx != old(profileIx)
    {
      DecisionKeepsInv(Tuned(), curr);
      var prevState, prevIx := tune, profileIx;
      match tune {
        case ParkingOnTop =>
          if Compare(curr, prev) != Same {
            ExitParking();
          }
        case ParkingTired =>
          tired := tired - 1;
          if tired == 0 {
            ExitParking();
          }
        case GoingRight => Search(Compare(curr, prev) == Better);
        case GoingLeft => Search(Compare(curr, prev) == Better);
      }
      if prevState != ParkingOnTop || tune != ParkingOnTop {
        prev := curr;
      }
      changed := profileIx != prevIx;
    }

    /**
      net_dim: `endEvents` is the sample's event counter, `curr` the rates
      measured since the start sample.  A changed profile schedules the worker
      and nothing is measured, let alone changed, until it has run.
     */
    method NetDim(endEvents: nat, curr: Stats) returns (scheduled: bool)
      requires Valid() && endEvents < 0x1_0000
      modifies this
      ensures Valid()
      ensures old(state) == ApplyNewProfile ==> state == ApplyNewProfile
      ensures var due := old(state) == MeasureInProgress && Elapsed(old(startEvents), endEvents) >= NEVENTS;
              && Tuned() == (if due then Decision(old(Tuned()), curr) else old(Tuned()))
              && startEvents == (if old(state) == StartMeasure || (due && !scheduled) then endEvents
                                 else old(startEvents))
      ensures old(state) == StartMeasure ==> state == MeasureInProgress
      ensures old(state) == MeasureInProgress ==> state == if scheduled then ApplyNewProfile else MeasureInProgress
      ensures scheduled <==> profileIx != old(profileIx)
      ensures applied == old(applied)
    {
      scheduled := false;
      match state {
        case ApplyNewProfile =>
        case StartMeasure =>
          startEvents := endEvents;
          state := MeasureInProgress;
        case MeasureInProgress =>
          var nevents := (endEvents + 0x1_0000 - startEvents) % 0x1_0000;
          if nevents >= NEVENTS {
            scheduled := Decide(curr);
            if scheduled {
              state := ApplyNewProfile;
            } else {
              startEvents := endEvents;
            }
          }
      }
    }

    /** ionic_dim_work: program the hardware for the current profile and measure again. */
    method Work()
      requires Valid() && state == ApplyNewProfile
      modifies this`applied, this`state
      ensures Valid() && state == StartMeasure && applied == Some(profileIx)
    {
      applied := Some(profileIx);
      state := StartMeasure;
    }
  }
}

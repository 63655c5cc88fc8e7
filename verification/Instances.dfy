/** Inputs at which the documented or expected behaviour fails, and small battles that show that the
hypotheses of the larger theorems can hold. */
module Instances {
  import opened Wrappers
  import opened FixPoint
  import opened PropertyEntries
  import opened BattleStates
  import opened PropertyRuntime
  import opened SlotLaws
  import opened HpRuntime
  import HpLaws
  import BoundaryLaws
  import TurnRuntime
  import TurnLaws
  import BoundedWaiting
  import Healing
  import FoldLaws
  import ModifierRuntime
  import ModifierLaws
  import FixPointLaws

  lemma IntegerFacts(n: Int32)
    ensures Denote(FromInt32(n)) == n * 0x2_0000_0000 && OnGrid(FromInt32(n)) && Decode(FromInt32(n)) == n * 0x400_0000
  {
    hide Denote, Decode, OnGrid, FromInt32;
    FixPointLaws.DecodeMonotone(FromInt32(n), FromInt32(n));
  }

  /** A kind-1 entry whose slot 0 was set to `v`. */
  function Entry(v: Raw): EntryRecord {
    EntryRecord([1], [true], [v], PostStages(false, false, false), 1, 1, 1, 0, 0, v)
  }

  lemma EntryTracks(v: Raw)
    ensures TracksSlotZero(Entry(v)) && Entry(v).materialized == v && Entry(v).post.AllNull()
  {
  }

  // -------------------------------------------------------------------------
  // HP
  // -------------------------------------------------------------------------

  /** One entity with 100 of 200 HP, no dirty HP and no negative HP. */
  function Wounded(): Store {
    Store(map[KeyOf(0, CURRENT_HP) := Entry(FromInt32(100)), KeyOf(0, MAX_HP) := Entry(FromInt32(200)),
              KeyOf(0, DIRTY_HP_RATIO) := Entry(FromInt32(0)), KeyOf(0, NEGATIVE_HP) := Entry(FromInt32(0))],
          map[], [])
  }

  lemma WoundedReads()
    ensures var s := Wounded();
      && HpLaws.Tracked(s, 0, CURRENT_HP) && HpLaws.ValueOf(s, 0, CURRENT_HP) == FromInt32(100)
      && HpLaws.Tracked(s, 0, NEGATIVE_HP) && HpLaws.ValueOf(s, 0, NEGATIVE_HP) == FromInt32(0)
      && HpRuntime.ReadProperty(s, 0, MAX_HP) == Ok(FromInt32(200)) && HpLaws.ValueOf(s, 0, MAX_HP) == FromInt32(200)
      && HpRuntime.ReadProperty(s, 0, DIRTY_HP_RATIO) == Ok(FromInt32(0)) && HpLaws.ValueOf(s, 0, DIRTY_HP_RATIO) == FromInt32(0)
  {
    hide FromInt32, TracksSlotZero;
    EntryTracks(FromInt32(100));
    EntryTracks(FromInt32(0));
  }

  lemma TargetIsFifty()
    ensures Decode(SetHpTarget(FromInt32(50), FromInt32(200), FromInt32(0))) == 50 * 0x400_0000
    ensures Denote(SetHpTarget(FromInt32(50), FromInt32(200), FromInt32(0))) == 50 * 0x2_0000_0000
  {
    hide Denote, Decode, OnGrid, FromInt32, Encode;
    IntegerFacts(50);
    IntegerFacts(200);
    IntegerFacts(0);
  }

  lemma CeilingIsMax()
    ensures HpLaws.Ceiling(FromInt32(200), FromInt32(0)) == 200 * 0x2_0000_0000
  {
    hide Denote, Decode, OnGrid, FromInt32, Encode;
    IntegerFacts(200);
    IntegerFacts(0);
  }

  /** Without locks, setting 100 HP to 50 reaches 50. */
  lemma SetHpInstance()
    ensures var (t, r) := ChangeNegative(Wounded(), [], 0, FromInt32(50), FromInt32(0), 100, true);
      r.Ok? && Denote(HpLaws.ValueOf(t, 0, CURRENT_HP)) == 50 * 0x2_0000_0000
  {
    hide Denote, Decode, OnGrid, FromInt32, Encode, Wounded, HpLaws.Tracked, HpLaws.ValueOf, HpRuntime.ReadProperty,
      HpLaws.Ceiling, SetHpTarget, ChangeNegative, SetHpDelta, Compare;
    WoundedReads();
    TargetIsFifty();
    CeilingIsMax();
    IntegerFacts(100);
    IntegerFacts(200);
    IntegerFacts(0);
    HpLaws.SetHpReachesTarget(Wounded(), [], 0, FromInt32(50), FromInt32(0), 100, true);
    assert !LockOf([], 100).success;
  }

  /** A lock that holds HP at the whole of MaxHP. */
  function FullLock(): seq<LockHpRecord> {
    [LockHpRecord("hold", 100, FromInt32(1))]
  }

  lemma FloorIsCurrent()
    ensures Denote(LockFloor(FromInt32(100), FromInt32(200), FromInt32(1))) == 100 * 0x2_0000_0000
    ensures Decode(LockFloor(FromInt32(100), FromInt32(200), FromInt32(1))) == 100 * 0x400_0000
  {
    hide Denote, Decode, OnGrid, FromInt32, Encode, Compare, LockFloor;
    IntegerFacts(100);
    IntegerFacts(200);
    IntegerFacts(1);
    HpLaws.LockFloorValue(FromInt32(100), FromInt32(200), FromInt32(1));
    HpLaws.LockFloorOnGrid(FromInt32(100), FromInt32(200), FromInt32(1));
    var floor := LockFloor(FromInt32(100), FromInt32(200), FromInt32(1));
    FixPointLaws.DecodeMonotone(floor, floor);
  }

  lemma LockHolds()
    ensures LockOf(FullLock(), 100).success && LockOf(FullLock(), 100).value == FromInt32(1)
  {
    hide FromInt32, Compare;
  }

  /** The hit would leave 70, below the floor of 100. */
  lemma HitTriggers(lock: LockHpResult)
    requires lock.success && lock.value == FromInt32(1)
    ensures Triggers(FromInt32(100), FromInt32(200), lock, FromInt32(-30))
  {
    hide Denote, Decode, OnGrid, FromInt32, Encode, Compare, LockFloor, Add;
    FloorIsCurrent();
    IntegerFacts(100);
    IntegerFacts(200);
    IntegerFacts(-30);
    FixPointLaws.GridExact(FromInt32(100), FromInt32(-30));
    assert Denote(ZERO) == 0 by {
      assert IsZero(ZERO);
    }
  }

  lemma HitIsStopped(hit: HpLaws.HitInput)
    requires hit == HpLaws.HitInput(FullLock(), FromInt32(-30), 100)
    ensures HpLaws.StoppedExactly(Wounded(), 0, hit)
  {
    hide Denote, Decode, OnGrid, FromInt32, Wounded, HpLaws.Tracked, HpLaws.ValueOf, HpRuntime.ReadProperty,
      LockFloor, LockOf, FullLock, Triggers;
    WoundedReads();
    LockHolds();
    HitTriggers(LockOf(FullLock(), 100));
    FloorIsCurrent();
    IntegerFacts(100);
    IntegerFacts(0);
    IntegerFacts(-30);
  }

  /** A hit of -30 on a fully locked entity goes to the ledger whole. */
  lemma LedgerInstance()
    ensures var t := HpLaws.TakeHits(Wounded(), 0, [HpLaws.HitInput(FullLock(), FromInt32(-30), 100)]);
      HpLaws.NetHp(t, 0) == HpLaws.NetHp(Wounded(), 0) - 30 * 0x2_0000_0000
  {
    hide Denote, Decode, OnGrid, FromInt32, Wounded, HpLaws.Tracked, HpLaws.ValueOf, HpRuntime.ReadProperty, FullLock,
      HpLaws.TakeHits, HpLaws.NetHp, HpLaws.TakeHit, HpLaws.StoppedExactly;
    var hit := HpLaws.HitInput(FullLock(), FromInt32(-30), 100);
    WoundedReads();
    HitIsStopped(hit);
    IntegerFacts(100);
    IntegerFacts(200);
    IntegerFacts(0);
    IntegerFacts(-30);
    assert HpLaws.LedgerReady(Wounded(), 0);
    assert [hit][1..] == [];
    HpLaws.LedgerConserves(Wounded(), 0, [hit]);
  }

  // -------------------------------------------------------------------------
  // Turns
  // -------------------------------------------------------------------------

  /** Two entities with delays 0 and 10. */
  function Duel(): TurnRuntime.Clock {
    TurnRuntime.Clock(
      Store(map[TurnRuntime.DelayKey(1) := Entry(FromInt32(0)), TurnRuntime.DelayKey(2) := Entry(FromInt32(10))], map[], []),
      Some(Timeline([1, 2], None, ZERO, 0, Ready, None)))
  }

  /** When every action costs at least 4, the second of them acts within four rounds. */
  lemma DuelInstance(ks: seq<BoundedWaiting.Completion>)
    requires |ks| >= 4 && forall k :: k in ks ==> BoundedWaiting.Recharges(k, 4 * 0x400_0000)
    ensures exists i :: 0 <= i < 4 && i < |BoundedWaiting.Actors(Duel(), ks)| && BoundedWaiting.Actors(Duel(), ks)[i] == 2
  {
    DuelIsReady();
    hide Duel, BoundedWaiting.Actors, BoundedWaiting.Recharges, TurnLaws.MayAdvance, BoundedWaiting.OnGridDelays, BoundedWaiting.Remaining;
    BoundedWaiting.EveryoneActs(Duel(), ks, 2, 4 * 0x400_0000);
  }

  lemma DuelIsReady()
    ensures TurnLaws.MayAdvance(Duel()) && BoundedWaiting.OnGridDelays(Duel())
    ensures Duel().timeline.value.ids == [1, 2] && BoundedWaiting.Remaining(Duel(), 2) == 10 * 0x400_0000
  {
    hide Denote, Decode, OnGrid, FromInt32, TracksSlotZero, IsNegative;
    IntegerFacts(0);
    IntegerFacts(10);
    EntryTracks(FromInt32(0));
    EntryTracks(FromInt32(10));
    assert Denote(ZERO) == 0 by {
      assert IsZero(ZERO);
    }
  }

  // -------------------------------------------------------------------------
  // Healing
  // -------------------------------------------------------------------------

  lemma DoubledBase()
    ensures Decode(Multiply(Subtract(FromInt32(200), FromInt32(100)), FromInt32(2))) == 200 * 0x400_0000
  {
    hide Denote, Decode, OnGrid, FromInt32, Encode, Subtract;
    IntegerFacts(200);
    IntegerFacts(100);
    IntegerFacts(2);
    FixPointLaws.GridExact(FromInt32(200), FromInt32(100));
  }

  lemma ConfiguredIs207()
    ensures Decode(Healing.Configured(FromInt32(200), FromInt32(100), FromInt32(2), FromInt32(7))) == 207 * 0x400_0000
  {
    hide Denote, Decode, OnGrid, FromInt32, Encode, Add, Multiply;
    var base := Subtract(FromInt32(200), FromInt32(100));
    DoubledBase();
    IntegerFacts(7);
    Healing.MultiplyOnGrid(base, FromInt32(2));
    FixPointLaws.GridExact(Multiply(base, FromInt32(2)), FromInt32(7));
  }

  lemma FactorIsOne()
    ensures Decode(Healing.Factor(FromInt32(0), FromInt32(0))) == 0x400_0000
  {
    hide Denote, Decode, OnGrid, FromInt32, Encode, Add, Healing.One;
    Healing.OneIsUnit();
    IntegerFacts(0);
    FixPointLaws.GridExact(Healing.One(), FromInt32(0));
    Healing.AddOnGrid(Healing.One(), FromInt32(0));
    FixPointLaws.GridExact(Add(Healing.One(), FromInt32(0)), FromInt32(0));
  }

  /** Missing 100 HP, a heal of twice that plus 7, with no ratios, loses less than four units. */
  lemma HealInstance()
    ensures var product := Decode(Multiply(Healing.Configured(FromInt32(200), FromInt32(100), FromInt32(2), FromInt32(7)),
                                           Healing.Factor(FromInt32(0), FromInt32(0))));
      207 * 0x400_0000 - 4 < product <= 207 * 0x400_0000
  {
    hide Denote, Decode, OnGrid, FromInt32, Encode, Multiply, Subtract, Healing.Configured, Healing.Factor, Healing.One;
    IntegerFacts(200);
    IntegerFacts(100);
    IntegerFacts(2);
    IntegerFacts(7);
    IntegerFacts(0);
    DoubledBase();
    ConfiguredIs207();
    FactorIsOne();
    Healing.HealError(FromInt32(200), FromInt32(100), FromInt32(2), FromInt32(7), FromInt32(0), FromInt32(0));
  }

  // -------------------------------------------------------------------------
  // Where the documented or expected behaviour fails
  // -------------------------------------------------------------------------

  lemma SmallCodes()
    ensures EncodeExtended(1) == 1 && EncodeStandard(0) == 0 && Decode(1) == 0
  {
  }

  /** Re-encoding the least positive count changes the bits: it is 1, then 0. */
  lemma ReencodingChangesBits()
    ensures Encode(1) == 1 && Encode(Decode(Encode(1))) == 0
  {
    hide Encode, Decode, EncodeExtended, EncodeStandard;
    SmallCodes();
    FixPointLaws.EncodingMode(1);
    FixPointLaws.EncodingMode(0);
  }

  lemma SmallCounts()
    ensures Decode(128) == 1 && Decode(256) == 2 && Decode(512) == 4
    ensures !IsNegative(128) && !IsNegative(256) && !IsNegative(512)
  {
  }

  /** From base 1, the sources 2 and 4 give the same in both orders and the sources 1 and 2 do not.
      All are counts of 2^-26. */
  lemma OddBaseInstance()
    ensures Decode(128) == 1 && Decode(256) == 2 && Decode(512) == 4
    ensures Equal(FoldAdd(128, [256, 512]), FoldAdd(128, [512, 256]))
    ensures !Equal(FoldAdd(128, [128, 256]), FoldAdd(128, [256, 128]))
  {
    hide Decode, Denote, IsNegative, FoldAdd, Compare;
    SmallCounts();
    FoldLaws.TwoSourcesSwapIff(128, 256, 512);
    FoldLaws.TwoSourcesSwapIff(128, 128, 256);
  }

  /** A fresh kind-1 entry of base 1 caches 1 and rebuilds to 0. */
  lemma FreshCacheDisagrees()
    ensures var r := CreateEmpty(1, FromInt32(1));
      r.materialized == FromInt32(1) && Rebuild(r) == Ok(r.(materialized := 0)) && !Equal(FromInt32(1), 0)
  {
    hide FromInt32, Denote, Compare;
    IntegerFacts(1);
    assert Denote(0) == 0 by {
      assert IsZero(0);
    }
  }

  const HALF: Raw := 0x1_0000_0000
  const THREE_QUARTERS: Raw := 0x1_8000_0000

  /** One entity at its full 100 HP, half of it dirty. */
  function Dirty(): Store {
    Store(map[KeyOf(0, DIRTY_HP_RATIO) := Entry(HALF)], map[], [])
  }

  lemma FractionFacts()
    ensures Decode(HALF) == 0x200_0000 && OnGrid(HALF) && Denote(HALF) == 0x1_0000_0000
    ensures Decode(THREE_QUARTERS) == 0x300_0000 && OnGrid(THREE_QUARTERS)
  {
  }

  lemma ThreeQuartersOfHundred()
    ensures Denote(Multiply(FromInt32(100), THREE_QUARTERS)) == 75 * 0x2_0000_0000
  {
    hide Denote, Decode, OnGrid, FromInt32, Encode;
    FractionFacts();
    IntegerFacts(100);
  }

  lemma HalfOfHundred()
    ensures Denote(DirtyBound(FromInt32(100), HALF)) == 50 * 0x2_0000_0000
  {
    hide Denote, Decode, OnGrid, FromInt32, Encode;
    FractionFacts();
    IntegerFacts(100);
    assert Decode(Multiply(FromInt32(100), HALF)) == 50 * 0x400_0000;
  }

  /** The lock floor is 75 and the dirty ceiling 50. */
  lemma FloorAndCeiling()
    ensures Denote(LockFloor(FromInt32(100), FromInt32(100), THREE_QUARTERS)) == 75 * 0x2_0000_0000
    ensures Denote(DirtyBound(FromInt32(100), HALF)) == 50 * 0x2_0000_0000
  {
    hide Denote, Decode, OnGrid, FromInt32, Multiply, LockFloor, DirtyBound;
    ThreeQuartersOfHundred();
    HalfOfHundred();
    IntegerFacts(100);
    HpLaws.LockFloorValue(FromInt32(100), FromInt32(100), THREE_QUARTERS);
  }

  lemma CandidateOf(delta: Int32)
    requires -100 <= delta <= 0
    ensures Denote(Add(FromInt32(100), FromInt32(delta))) == (100 + delta) * 0x2_0000_0000
    ensures Denote(FromInt32(delta)) == delta * 0x2_0000_0000
  {
    hide Denote, Decode, OnGrid, FromInt32, Add;
    IntegerFacts(100);
    IntegerFacts(delta);
    FixPointLaws.GridExact(FromInt32(100), FromInt32(delta));
  }

  lemma DirtyReads()
    ensures HpRuntime.ReadProperty(Dirty(), 0, DIRTY_HP_RATIO) == Ok(HALF)
  {
  }

  lemma LockTriggersAt(lock: LockHpResult, delta: Int32)
    requires lock.success && lock.value == THREE_QUARTERS && -100 <= delta <= 0
    ensures Triggers(FromInt32(100), FromInt32(100), lock, FromInt32(delta)) <==> delta < -25
  {
    hide Denote, Decode, OnGrid, FromInt32, Compare, LockFloor, Add;
    FloorAndCeiling();
    CandidateOf(delta);
    IntegerFacts(100);
    assert Denote(ZERO) == 0 by {
      assert IsZero(ZERO);
    }
  }

  /** The stronger hit leaves more: a lock at three quarters stops -30 at 75, while -10 passes it and
      is cut to the dirty ceiling of 50. */
  lemma StrongerHitLeavesMore(lock: LockHpResult)
    requires lock.success && lock.value == THREE_QUARTERS
    ensures var strong := NextHp(Dirty(), 0, FromInt32(100), FromInt32(100), lock, FromInt32(-30));
      var weak := NextHp(Dirty(), 0, FromInt32(100), FromInt32(100), lock, FromInt32(-10));
      && strong.Ok? && Denote(strong.value) == 75 * 0x2_0000_0000
      && weak.Ok? && Denote(weak.value) == 50 * 0x2_0000_0000
      && Less(FromInt32(-30), FromInt32(-10)) && Less(weak.value, strong.value)
  {
    hide Denote, Decode, OnGrid, FromInt32, Compare, LockFloor, Add, DirtyBound, Dirty, NextHp, Triggers;
    FractionFacts();
    FloorAndCeiling();
    CandidateOf(-30);
    CandidateOf(-10);
    IntegerFacts(100);
    DirtyReads();
    LockTriggersAt(lock, -30);
    LockTriggersAt(lock, -10);
    HpLaws.NextHpClosedForm(Dirty(), 0, FromInt32(100), FromInt32(100), lock, FromInt32(-30));
    HpLaws.NextHpClosedForm(Dirty(), 0, FromInt32(100), FromInt32(100), lock, FromInt32(-10));
  }

  /** An additive NegativeHP entry of base 1, with a silent slot 0. */
  function Additive(): EntryRecord {
    EntryRecord([0], [false], [0], PostStages(false, false, false), 3, 0, 0, 0, FromInt32(1), FromInt32(1))
  }

  /** An additive entry whose only slot is active reads base plus that slot. */
  lemma OneSlotReads(r: EntryRecord, v: Raw)
    requires r.kind == 3 && r.active == [true] && r.value == [v]
    ensures Materialize(r) == Some(Add(r.base, v))
  {
    hide Add, FoldMultiply;
    assert ActivePrefix(r.active, r.value, 1) == ActivePrefix(r.active, r.value, 0) + [v] == [v];
    assert [v][..0] == [] && FoldAdd(r.base, [v]) == Add(r.base, v);
  }

  lemma AdditiveReads(v: Raw)
    ensures Update(Additive(), 0, v).Ok? && Update(Additive(), 0, v).value.materialized == Add(FromInt32(1), v)
  {
    hide FromInt32, Add, CountActive, Materialize;
    OneSlotReads(WriteSlot(Additive(), 0, v), v);
  }

  lemma SumsApart(overflow: Raw)
    requires Decode(overflow) == 30 * 0x400_0000
    ensures Add(FromInt32(1), Add(FromInt32(1), overflow)) != Add(FromInt32(1), overflow)
  {
    hide Denote, Decode, Encode, OnGrid, FromInt32;
    IntegerFacts(1);
    var total := Add(FromInt32(1), overflow);
    assert Decode(total) == 31 * 0x400_0000;
    assert Decode(Add(FromInt32(1), total)) == 32 * 0x400_0000;
  }

  /** The wounded entity with such an entry for its NegativeHP. */
  function WoundedAdditive(): Store {
    var s := Wounded();
    s.(entries := s.entries[KeyOf(0, NEGATIVE_HP) := Additive()])
  }

  lemma NotReadBack(overflow: Raw)
    requires Decode(overflow) == 30 * 0x400_0000
    ensures !BoundaryLaws.ReadsBack(Additive(), Add(FromInt32(1), overflow))
  {
    hide FromInt32, Add, Update, Decode;
    AdditiveReads(Add(FromInt32(1), overflow));
    SumsApart(overflow);
    BoundaryLaws.WriteReadsBackIff(Additive(), Add(FromInt32(1), overflow));
  }

  lemma OverflowIsThirty(lock: LockHpResult)
    requires lock.success && lock.value == FromInt32(1)
    ensures Decode(Overflow(FromInt32(100), FromInt32(200), lock, FromInt32(-30))) == 30 * 0x400_0000
    ensures HpLaws.Spills(FromInt32(100), FromInt32(200), lock, FromInt32(-30), true)
  {
    hide Denote, Decode, OnGrid, FromInt32, Encode, LockFloor, Triggers, IsPositive, Add;
    HitTriggers(lock);
    FloorIsCurrent();
    IntegerFacts(100);
    IntegerFacts(-30);
    FixPointLaws.GridExact(FromInt32(100), FromInt32(-30));
  }

  /** A hit of -30 on a fully locked entity spills 30 into an additive NegativeHP of base 1: the log
      says 31 while the entry reads 32, and the history of the entry is broken for good. */
  lemma SpillBreaksHistory()
    ensures var s, key := WoundedAdditive(), KeyOf(0, NEGATIVE_HP);
      var hit := BoundaryLaws.Damage(FullLock(), 0, FromInt32(-30), 100, 0, true);
      BoundaryLaws.Told(s, key, FromInt32(1)) && !BoundaryLaws.Told(BoundaryLaws.LogApply(s, hit), key, FromInt32(1))
  {
    hide FromInt32, LockOf, HpLaws.Spills, Overflow, Add, BoundaryLaws.ReadsBack, BoundaryLaws.LogApply, FullLock;
    var s, key := WoundedAdditive(), KeyOf(0, NEGATIVE_HP);
    var hit := BoundaryLaws.Damage(FullLock(), 0, FromInt32(-30), 100, 0, true);
    LockHolds();
    OverflowIsThirty(LockOf(FullLock(), 100));
    NotReadBack(Overflow(FromInt32(100), FromInt32(200), LockOf(FullLock(), 100), FromInt32(-30)));
    BoundaryLaws.LogApplyTells(s, hit, key, FromInt32(1));
  }

  function Burn(ordinal: nat, stateRaw: int): ModifierState {
    ModifierState("burn", 0, ordinal, stateRaw, 0, 0, 0, 0, 0, None, None, 0, false, 0, None)
  }

  lemma TailGoes(a: ModifierState, b: ModifierState)
    requires ModifierRuntime.Keeps(a) && !ModifierRuntime.Keeps(b)
    ensures ModifierRuntime.Kept([a, b]) == [a]
  {
    assert [a, b][..1] == [a] && [a][..0] == [];
    assert ModifierRuntime.Kept([a]) == [a];
  }

  /** A dying tail gives its ordinal back: with ordinals 0 and 1 the next is 2, and after the sweep
      it is 1 again. */
  lemma OrdinalIsReused()
    ensures var items := [Burn(0, ALIVE), Burn(1, TO_BE_REMOVED)];
      && ModifierLaws.Increasing(items) && ModifierRuntime.NextOrdinal(items) == 2
      && ModifierRuntime.Kept(items) == [Burn(0, ALIVE)] && ModifierRuntime.NextOrdinal(ModifierRuntime.Kept(items)) == 1
  {
    hide ModifierRuntime.Kept, ModifierRuntime.NextOrdinal;
    var a, b := Burn(0, ALIVE), Burn(1, TO_BE_REMOVED);
    TailGoes(a, b);
    ModifierLaws.NextAfterLast([a, b]);
    ModifierLaws.NextAfterLast([a]);
  }

  /** A dying modifier matches under the filter 2. */
  lemma DyingMatchesUnderOtherFilter()
    ensures var key := ModifierRuntime.MatchKey("burn", 0, None, None);
      ModifierRuntime.MatchSearch(Burn(0, TO_BE_REMOVED), key, 2) && !ModifierRuntime.MatchSearch(Burn(0, TO_BE_REMOVED), key, 0)
  {
  }
}

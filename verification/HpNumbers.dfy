/** What setting HP and the dirty bound come to, in the numbers they start from.

An exact product of two counts of 2^-26 is a count of 2^-52; `UNIT` converts between the two.  The
exact numbers here are the formulas as one writes them on paper, without rounding.
 */
module HpNumbers {
  import opened Wrappers
  import opened FixPoint
  import opened FixPointLaws
  import opened PropertyEntries
  import opened BattleStates
  import opened PropertyRuntime
  import opened HpRuntime
  import opened HpLaws
  import opened SlotLaws

  /** ModifyValue + MaxHP * ModifyRatio. */
  function ExactTarget(modifyValue: Raw, maxHp: Raw, modifyRatio: Raw): int {
    UNIT * Decode(modifyValue) + Decode(maxHp) * Decode(modifyRatio)
  }

  /** MaxHP * (1 - DirtyHPRatio). */
  function ExactBound(maxHp: Raw, dirtyRatio: Raw): int {
    Decode(maxHp) * (UNIT - Decode(dirtyRatio))
  }

  /** No step of the target saturates. */
  ghost predicate TargetFits(modifyValue: Raw, maxHp: Raw, modifyRatio: Raw) {
    var scaled := Decode(maxHp) * Decode(modifyRatio) / UNIT;
    Fits(scaled) && Fits(Decode(modifyValue) + scaled - 1) && Fits(Decode(modifyValue) + scaled)
  }

  /** No step of the bound saturates. */
  ghost predicate BoundFits(maxHp: Raw, dirtyRatio: Raw) {
    var share := Decode(maxHp) * Decode(dirtyRatio) / UNIT;
    Fits(share) && Fits(Decode(maxHp) - share) && Fits(Decode(maxHp) - share + 1)
  }

  /** Absent saturation a product is the exact one, truncated and dropped to even. */
  lemma ProductCount(a: Raw, b: Raw)
    requires Fits(Decode(a) * Decode(b) / UNIT)
    ensures Decode(Multiply(a, b)) == FloorEven(Decode(a) * Decode(b) / UNIT) && OnGrid(Multiply(a, b))
  {
    hide Decode, Denote, OnGrid;
  }

  /** The SetHP target falls short of the exact one by less than two counts, and never exceeds it. */
  lemma TargetRounds(modifyValue: Raw, maxHp: Raw, modifyRatio: Raw)
    requires OnGrid(modifyValue) && TargetFits(modifyValue, maxHp, modifyRatio)
    ensures OnGrid(SetHpTarget(modifyValue, maxHp, modifyRatio))
    ensures 0 <= ExactTarget(modifyValue, maxHp, modifyRatio) - UNIT * Decode(SetHpTarget(modifyValue, maxHp, modifyRatio)) < 2 * UNIT
  {
    hide Decode, Denote, OnGrid, Encode, Multiply;
    ProductCount(maxHp, modifyRatio);
    ProductLoss(maxHp, modifyRatio);
    GridExact(modifyValue, Multiply(maxHp, modifyRatio));
  }

  /** The dirty bound exceeds the exact one by less than two counts, and never falls short of it. */
  lemma BoundRounds(maxHp: Raw, dirtyRatio: Raw)
    requires OnGrid(maxHp) && BoundFits(maxHp, dirtyRatio)
    ensures OnGrid(DirtyBound(maxHp, dirtyRatio))
    ensures 0 <= UNIT * Decode(DirtyBound(maxHp, dirtyRatio)) - ExactBound(maxHp, dirtyRatio) < 2 * UNIT
  {
    hide Decode, Denote, OnGrid, Encode, Multiply;
    ProductCount(maxHp, dirtyRatio);
    ProductLoss(maxHp, dirtyRatio);
    GridExact(maxHp, Multiply(maxHp, dirtyRatio));
    Distributes(Decode(maxHp), Decode(dirtyRatio));
  }

  lemma Distributes(m: int, d: int)
    ensures m * (UNIT - d) == UNIT * m - m * d
  {
  }

  /** The least of a candidate and a rounded-up bound, where both are even, told by the exact bound. */
  lemma CappedBy(c: int, b: int, exact: int, y: int)
    requires c % 2 == 0 && b % 2 == 0 && 0 <= UNIT * b - exact < 2 * UNIT && y == MinI(c, MaxI(b, 0))
    ensures c <= 0 || UNIT * c < exact + 2 * UNIT ==> y == c
    ensures c > 0 && UNIT * c >= exact + 2 * UNIT ==>
      if exact <= 0 then y == 0 else exact <= UNIT * y < exact + 2 * UNIT
  {
  }

  lemma CountOf(raw: Raw, c: int)
    requires Denote(raw) == 128 * c
    ensures Decode(raw) == c
  {
    hide Denote, Decode;
  }

  /** An unlocked hit leaves the candidate where that is not positive or below the exact bound, two
      counts aside; else zero under a bound that is not positive, and the bound, within two counts. */
  lemma UnlockedHp(s: Store, component: EntityId, current: Raw, maxHp: Raw, lock: LockHpResult, delta: Raw)
    requires Denote(maxHp) > 0 && OnGrid(maxHp) && OnGrid(current) && OnGrid(delta) && Fits(Decode(current) + Decode(delta))
    requires ReadProperty(s, component, DIRTY_HP_RATIO).Ok?
    requires BoundFits(maxHp, ReadProperty(s, component, DIRTY_HP_RATIO).value)
    requires !Triggers(current, maxHp, lock, delta)
    ensures NextHp(s, component, current, maxHp, lock, delta).Ok?
    ensures var c, y := Decode(current) + Decode(delta), Decode(NextHp(s, component, current, maxHp, lock, delta).value);
      var exact := ExactBound(maxHp, ReadProperty(s, component, DIRTY_HP_RATIO).value);
      && (c <= 0 || UNIT * c < exact + 2 * UNIT ==> y == c)
      && (c > 0 && UNIT * c >= exact + 2 * UNIT ==> if exact <= 0 then y == 0 else exact <= UNIT * y < exact + 2 * UNIT)
  {
    hide Denote, Decode, OnGrid, Triggers, Add, Multiply, DirtyBound, ClampHp, ExactBound, BoundFits, ReadProperty, MinI, MaxI, Fits;
    var dirtyRatio := ReadProperty(s, component, DIRTY_HP_RATIO).value;
    var y := ClampHp(Add(current, delta), DirtyBound(maxHp, dirtyRatio), maxHp);
    assert NextHp(s, component, current, maxHp, lock, delta) == Ok(y);
    BoundRounds(maxHp, dirtyRatio);
    ClampedCount(current, delta, DirtyBound(maxHp, dirtyRatio), maxHp);
    CappedBy(Decode(current) + Decode(delta), Decode(DirtyBound(maxHp, dirtyRatio)), ExactBound(maxHp, dirtyRatio), Decode(y));
  }

  /** The clamp in counts, all even. */
  lemma ClampedCount(current: Raw, delta: Raw, bound: Raw, maxHp: Raw)
    requires Denote(maxHp) > 0 && OnGrid(current) && OnGrid(delta) && OnGrid(bound) && Fits(Decode(current) + Decode(delta))
    ensures var c := Decode(current) + Decode(delta);
      && c % 2 == 0 && Decode(bound) % 2 == 0
      && Decode(ClampHp(Add(current, delta), bound, maxHp)) == MinI(c, MaxI(Decode(bound), 0))
  {
    hide Denote, Decode, OnGrid, Add, ClampHp;
    ClampValue(Add(current, delta), bound, maxHp);
    GridExact(current, delta);
    GridCount(current);
    GridCount(delta);
    GridCount(bound);
    CountOf(ClampHp(Add(current, delta), bound, maxHp), MinI(Decode(current) + Decode(delta), MaxI(Decode(bound), 0)));
  }

  // -------------------------------------------------------------------------
  // SetHP
  // -------------------------------------------------------------------------

  /** A rounded-down even count is below an even one exactly when the exact number is. */
  lemma BelowIff(t: int, exact: int, c: int)
    requires t % 2 == 0 && c % 2 == 0 && 0 <= exact - UNIT * t < 2 * UNIT
    ensures t < c <==> exact < UNIT * c
  {
  }

  /** A rounded-up even count is not below an even one exactly when the exact number, two counts
      aside, is above it. */
  lemma NotAboveIff(c: int, b: int, exact: int)
    requires c % 2 == 0 && b % 2 == 0 && 0 <= UNIT * b - exact < 2 * UNIT
    ensures c <= b <==> UNIT * c < exact + 2 * UNIT
  {
  }

  /** On-grid numbers that do not saturate, HP not above its dirty ceiling, and a target below it. */
  ghost predicate LowersTo(current: Raw, maxHp: Raw, dirtyRatio: Raw, modifyValue: Raw, modifyRatio: Raw) {
    var exact := ExactTarget(modifyValue, maxHp, modifyRatio);
    && OnGrid(current) && OnGrid(maxHp) && OnGrid(modifyValue) && Denote(maxHp) > 0 && Denote(dirtyRatio) >= 0
    && TargetFits(modifyValue, maxHp, modifyRatio) && BoundFits(maxHp, dirtyRatio)
    && (Decode(current) <= 0 || UNIT * Decode(current) < ExactBound(maxHp, dirtyRatio) + 2 * UNIT)
    && exact < UNIT * Decode(current) && INT64_MIN * UNIT <= exact - UNIT * Decode(current) - 2 * UNIT
  }

  /** The lock holds HP above the exact target. */
  ghost predicate HoldsAbove(current: Raw, maxHp: Raw, lock: LockHpResult, exact: int) {
    lock.success && exact < UNIT * Decode(LockFloor(current, maxHp, lock.value))
  }

  lemma GridCount(raw: Raw)
    requires OnGrid(raw)
    ensures Denote(raw) == 128 * Decode(raw) && Decode(raw) % 2 == 0
  {
    hide Denote, Decode, OnGrid;
    DecodeMonotone(raw, raw);
  }

  lemma LowersToLowers(current: Raw, maxHp: Raw, dirtyRatio: Raw, modifyValue: Raw, modifyRatio: Raw)
    requires LowersTo(current, maxHp, dirtyRatio, modifyValue, modifyRatio)
    ensures LowersExactly(current, SetHpTarget(modifyValue, maxHp, modifyRatio), Ceiling(maxHp, dirtyRatio))
  {
    hide Denote, Decode, OnGrid, SetHpTarget, DirtyBound, ExactTarget, ExactBound, TargetFits, BoundFits;
    var target, bound := SetHpTarget(modifyValue, maxHp, modifyRatio), DirtyBound(maxHp, dirtyRatio);
    TargetRounds(modifyValue, maxHp, modifyRatio);
    BoundRounds(maxHp, dirtyRatio);
    GridCount(current);
    GridCount(target);
    GridCount(bound);
    BelowIff(Decode(target), ExactTarget(modifyValue, maxHp, modifyRatio), Decode(current));
    NotAboveIff(Decode(current), Decode(bound), ExactBound(maxHp, dirtyRatio));
  }

  lemma LowersFacts(current: Raw, maxHp: Raw, dirtyRatio: Raw, modifyValue: Raw, modifyRatio: Raw)
    requires LowersTo(current, maxHp, dirtyRatio, modifyValue, modifyRatio)
    ensures Denote(current) <= Denote(maxHp) && Less(SetHpDelta(SetHpTarget(modifyValue, maxHp, modifyRatio), current), ZERO)
  {
    LowersToLowers(current, maxHp, dirtyRatio, modifyValue, modifyRatio);
    hide Denote, Decode, OnGrid, SetHpTarget, DirtyBound, ExactTarget, ExactBound, TargetFits, BoundFits, Subtract, Compare;
    var target := SetHpTarget(modifyValue, maxHp, modifyRatio);
    DirtyBoundBelowMax(maxHp, dirtyRatio);
    TargetRounds(modifyValue, maxHp, modifyRatio);
    GridExact(target, current);
    DeltaIsNegative(SetHpDelta(target, current), target, current);
  }

  /** The hit that SetHP makes is stopped exactly when the lock holds HP above the exact target. */
  lemma StoppedIff(current: Raw, maxHp: Raw, dirtyRatio: Raw, modifyValue: Raw, modifyRatio: Raw, lock: LockHpResult)
    requires LowersTo(current, maxHp, dirtyRatio, modifyValue, modifyRatio)
    ensures Triggers(current, maxHp, lock, SetHpDelta(SetHpTarget(modifyValue, maxHp, modifyRatio), current)) <==>
      HoldsAbove(current, maxHp, lock, ExactTarget(modifyValue, maxHp, modifyRatio))
  {
    LowersToLowers(current, maxHp, dirtyRatio, modifyValue, modifyRatio);
    hide Denote, Decode, OnGrid, SetHpTarget, DirtyBound, ExactTarget, ExactBound, TargetFits, BoundFits, LockFloor, Ceiling,
      Add, Subtract, Compare;
    var target, floor := SetHpTarget(modifyValue, maxHp, modifyRatio), LockFloor(current, maxHp, lock.value);
    TargetRounds(modifyValue, maxHp, modifyRatio);
    DeltaComesBack(target, current);
    LockFloorOnGrid(current, maxHp, lock.value);
    GridCount(target);
    GridCount(floor);
    BelowIff(Decode(target), ExactTarget(modifyValue, maxHp, modifyRatio), Decode(floor));
    assert Denote(ZERO) == 0 by {
      assert IsZero(ZERO);
    }
  }

  /** Setting HP below what it is always succeeds.  It leaves CurrentHP at ModifyValue + MaxHP *
      ModifyRatio, less at most two counts of 2^-26, exactly when the lock does not hold it higher. */
  lemma SetHpReachesNumber(s: Store, records: seq<LockHpRecord>, component: EntityId, modifyValue: Raw, modifyRatio: Raw,
                           damageKind: int, negativeHpGate: bool)
    requires Tracked(s, component, CURRENT_HP) && (negativeHpGate ==> Tracked(s, component, NEGATIVE_HP))
    requires ReadProperty(s, component, MAX_HP).Ok? && ReadProperty(s, component, DIRTY_HP_RATIO).Ok?
    requires LowersTo(ValueOf(s, component, CURRENT_HP), ValueOf(s, component, MAX_HP), ValueOf(s, component, DIRTY_HP_RATIO),
                      modifyValue, modifyRatio)
    ensures var current, maxHp := ValueOf(s, component, CURRENT_HP), ValueOf(s, component, MAX_HP);
      var exact := ExactTarget(modifyValue, maxHp, modifyRatio);
      var (t, r) := ChangeNegative(s, records, component, modifyValue, modifyRatio, damageKind, negativeHpGate);
      && r.Ok?
      && (0 <= exact - UNIT * Decode(ValueOf(t, component, CURRENT_HP)) < 2 * UNIT <==>
           !HoldsAbove(current, maxHp, LockOf(records, damageKind), exact))
  {
    hide Denote, Decode, OnGrid, SetHpTarget, SetHpDelta, DirtyBound, ExactTarget, ExactBound, TargetFits, BoundFits, LockFloor,
      Triggers, ChangeNegative, LockOf, Tracked, ReadProperty, Hit, NextHp, Compare, Multiply;
    var current, maxHp := ValueOf(s, component, CURRENT_HP), ValueOf(s, component, MAX_HP);
    var dirtyRatio := ValueOf(s, component, DIRTY_HP_RATIO);
    var target, lock := SetHpTarget(modifyValue, maxHp, modifyRatio), LockOf(records, damageKind);
    TargetRounds(modifyValue, maxHp, modifyRatio);
    LowersToLowers(current, maxHp, dirtyRatio, modifyValue, modifyRatio);
    StoppedIff(current, maxHp, dirtyRatio, modifyValue, modifyRatio, lock);
    SetHpReachesTarget(s, records, component, modifyValue, modifyRatio, damageKind, negativeHpGate);
    var y := ValueOf(ChangeNegative(s, records, component, modifyValue, modifyRatio, damageKind, negativeHpGate).0, component, CURRENT_HP);
    GridCount(target);
    if Triggers(current, maxHp, lock, SetHpDelta(target, current)) {
      LowersFacts(current, maxHp, dirtyRatio, modifyValue, modifyRatio);
      StoppedLeavesFloor(s, records, component, modifyValue, modifyRatio, damageKind, negativeHpGate);
    } else {
      CountOf(y, Decode(target));
    }
  }

  /** A SetHP that does not lower HP is refused and changes nothing: exactly when the exact target is
      not below the old HP. */
  lemma SetHpRefusedIff(s: Store, records: seq<LockHpRecord>, component: EntityId, modifyValue: Raw, modifyRatio: Raw,
                        damageKind: int, negativeHpGate: bool)
    requires ReadProperty(s, component, MAX_HP).Ok? && ReadProperty(s, component, CURRENT_HP).Ok?
    requires var current, maxHp := ValueOf(s, component, CURRENT_HP), ValueOf(s, component, MAX_HP);
      var exact := ExactTarget(modifyValue, maxHp, modifyRatio);
      && OnGrid(current) && OnGrid(modifyValue) && TargetFits(modifyValue, maxHp, modifyRatio)
      && INT64_MIN * UNIT <= exact - UNIT * Decode(current) - 2 * UNIT && exact - UNIT * Decode(current) <= INT64_MAX * UNIT
    ensures var current, maxHp := ValueOf(s, component, CURRENT_HP), ValueOf(s, component, MAX_HP);
      var (t, r) := ChangeNegative(s, records, component, modifyValue, modifyRatio, damageKind, negativeHpGate);
      && (r.Err? && r.error.UnsupportedPositiveDelta? <==> UNIT * Decode(current) <= ExactTarget(modifyValue, maxHp, modifyRatio))
      && (r.Err? && r.error.UnsupportedPositiveDelta? ==> t == s)
  {
    hide Denote, Decode, OnGrid, SetHpTarget, ExactTarget, TargetFits, Transition, Compare, Subtract;
    var current, maxHp := ValueOf(s, component, CURRENT_HP), ValueOf(s, component, MAX_HP);
    var target := SetHpTarget(modifyValue, maxHp, modifyRatio);
    TargetRounds(modifyValue, maxHp, modifyRatio);
    GridCount(current);
    GridCount(target);
    GridExact(target, current);
    BelowIff(Decode(target), ExactTarget(modifyValue, maxHp, modifyRatio), Decode(current));
    assert Denote(ZERO) == 0 by {
      assert IsZero(ZERO);
    }
    NeverUnsupported(s, records, component, SetHpDelta(target, current), damageKind, negativeHpGate);
  }

  lemma NeverUnsupported(s: Store, records: seq<LockHpRecord>, component: EntityId, delta: Raw, damageKind: int, gate: bool)
    ensures var r := Transition(s, records, component, delta, damageKind, 0, gate).1;
      r.Err? ==> !r.error.UnsupportedPositiveDelta?
  {
    hide LockOf, Triggers, ClampHp, LockFloor, DirtyBound, Update, Overflow, Add, Subtract, Compare, IsPositive;
  }

  /** A stopped SetHP leaves the lock floor. */
  lemma StoppedLeavesFloor(s: Store, records: seq<LockHpRecord>, component: EntityId, modifyValue: Raw, modifyRatio: Raw,
                           damageKind: int, negativeHpGate: bool)
    requires Tracked(s, component, CURRENT_HP) && (negativeHpGate ==> Tracked(s, component, NEGATIVE_HP))
    requires ReadProperty(s, component, MAX_HP).Ok?
    requires var maxHp, current := ValueOf(s, component, MAX_HP), ValueOf(s, component, CURRENT_HP);
      var delta := SetHpDelta(SetHpTarget(modifyValue, maxHp, modifyRatio), current);
      && OnGrid(current) && OnGrid(maxHp) && 0 < Denote(maxHp) && Denote(current) <= Denote(maxHp) && Less(delta, ZERO)
      && Triggers(current, maxHp, LockOf(records, damageKind), delta)
    ensures var t := ChangeNegative(s, records, component, modifyValue, modifyRatio, damageKind, negativeHpGate).0;
      Decode(ValueOf(t, component, CURRENT_HP)) ==
        Decode(LockFloor(ValueOf(s, component, CURRENT_HP), ValueOf(s, component, MAX_HP), LockOf(records, damageKind).value))
  {
    hide Denote, Decode, OnGrid, SetHpTarget, SetHpDelta, LockFloor, Triggers, ChangeNegative, LockOf, TracksSlotZero, Hit, Compare,
      ClampHp, Multiply;
    var current, maxHp := ValueOf(s, component, CURRENT_HP), ValueOf(s, component, MAX_HP);
    var lock := LockOf(records, damageKind);
    var delta := SetHpDelta(SetHpTarget(modifyValue, maxHp, modifyRatio), current);
    var floor := LockFloor(current, maxHp, lock.value);
    ChangeIsHit(s, records, component, modifyValue, modifyRatio, damageKind, negativeHpGate);
    assert NextHp(s, component, current, maxHp, lock, delta) == Ok(ClampHp(floor, maxHp, maxHp));
    hide NextHp;
    HitWrites(s, component, current, maxHp, lock, delta, negativeHpGate);
    ClampValue(floor, maxHp, maxHp);
    LockFloorValue(current, maxHp, lock.value);
    LockFloorOnGrid(current, maxHp, lock.value);
    GridCount(floor);
    CountOf(ClampHp(floor, maxHp, maxHp), Decode(floor));
  }
}

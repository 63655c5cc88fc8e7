/** Laws of the HP transition. */
module HpLaws {
  import opened Wrappers
  import opened FixPoint
  import opened PropertyEntries
  import opened BattleStates
  import opened PropertyRuntime
  import opened HpRuntime
  import opened SlotLaws
  import FixPointLaws

  function MinI(a: int, b: int): int {
    if a < b then a else b
  }

  function MaxI(a: int, b: int): int {
    if a > b then a else b
  }

  // -------------------------------------------------------------------------
  // The lock scan
  // -------------------------------------------------------------------------

  ghost predicate QualifiesAt(records: seq<LockHpRecord>, damageKind: int, i: int) {
    0 <= i < |records| && records[i].kind >= damageKind
  }

  /** From `b` on, every qualifying record has the value `v`. */
  ghost predicate AgreesFrom(records: seq<LockHpRecord>, damageKind: int, v: Raw, b: int) {
    forall i :: QualifiesAt(records, damageKind, i) && b <= i ==> Denote(records[i].value) == Denote(v)
  }

  lemma {:induction false} LastQualifyingIsLast(records: seq<LockHpRecord>, damageKind: int, n: nat)
    requires n <= |records|
    ensures var h := LastQualifying(records, damageKind, n);
      if h.None? then forall i :: 0 <= i < n ==> !QualifiesAt(records, damageKind, i)
      else QualifiesAt(records, damageKind, h.value) && forall i :: h.value < i < n ==> !QualifiesAt(records, damageKind, i)
  {
    if n > 0 && !Qualifies(records[n - 1], damageKind) {
      LastQualifyingIsLast(records, damageKind, n - 1);
    }
  }

  lemma {:induction false} BlockIsMaximal(records: seq<LockHpRecord>, damageKind: int, v: Raw, n: nat, best: nat)
    requires n <= best < |records| && QualifiesAt(records, damageKind, best)
    requires AgreesFrom(records, damageKind, v, best)
    requires forall i :: n <= i < best ==> !QualifiesAt(records, damageKind, i)
    ensures var b := BlockStart(records, damageKind, v, n, best);
      && QualifiesAt(records, damageKind, b) && AgreesFrom(records, damageKind, v, b)
      && forall i :: QualifiesAt(records, damageKind, i) && i < b ==> !AgreesFrom(records, damageKind, v, i)
  {
    hide Compare, Denote;
    if n > 0 {
      if !Qualifies(records[n - 1], damageKind) {
        BlockIsMaximal(records, damageKind, v, n - 1, best);
      } else if Equal(v, records[n - 1].value) {
        BlockIsMaximal(records, damageKind, v, n - 1, n - 1);
      } else {
        assert QualifiesAt(records, damageKind, n - 1);
      }
    }
  }

  /** The scan succeeds just when some record qualifies, and returns nothing otherwise.  It returns the value of the last one and
      the actions, in forward order, from the earliest qualifying index after which all qualifying
      records agree with that value, low-kind records in between included. */
  lemma LockScanMeaning(records: seq<LockHpRecord>, damageKind: int)
    ensures var r := LockOf(records, damageKind);
      && (r.success <==> exists i :: QualifiesAt(records, damageKind, i))
      && (!r.success ==> r == LockHpResult(false, 0, []))
      && (r.success ==> exists h, b ::
           && QualifiesAt(records, damageKind, h) && (forall i :: QualifiesAt(records, damageKind, i) ==> i <= h)
           && r.value == records[h].value
           && QualifiesAt(records, damageKind, b) && AgreesFrom(records, damageKind, r.value, b)
           && (forall i :: QualifiesAt(records, damageKind, i) && i < b ==> !AgreesFrom(records, damageKind, r.value, i))
           && r.actions == Actions(records, b))
  {
    hide Denote;
    LastQualifyingIsLast(records, damageKind, |records|);
    var last := LastQualifying(records, damageKind, |records|);
    if last.Some? {
      var h := last.value;
      assert AgreesFrom(records, damageKind, records[h].value, h);
      BlockIsMaximal(records, damageKind, records[h].value, h, h);
      var b := BlockStart(records, damageKind, records[h].value, h, h);
      assert QualifiesAt(records, damageKind, h) && QualifiesAt(records, damageKind, b);
    }
  }

  // -------------------------------------------------------------------------
  // Closed forms, in value
  // -------------------------------------------------------------------------

  lemma FpMinMaxValue(a: Raw, b: Raw)
    ensures Denote(FpMin(a, b)) == MinI(Denote(a), Denote(b))
    ensures Denote(FpMax(a, b)) == MaxI(Denote(a), Denote(b))
  {
    hide Denote, Compare;
  }

  /** 2 in units of 2^-33. */
  const TWO: int := 0x4_0000_0000

  lemma LockFloorValue(current: Raw, maxHp: Raw, lockValue: Raw)
    ensures Denote(LockFloor(current, maxHp, lockValue)) ==
      MinI(Denote(current), MaxI(MinI(TWO, Denote(maxHp)), Denote(Multiply(maxHp, lockValue))))
  {
    hide Denote, Multiply, FromInt32, FpMin, FpMax;
    FpMinMaxValue(FromInt32(2), maxHp);
    var a := FpMin(FromInt32(2), maxHp);
    FpMinMaxValue(a, Multiply(maxHp, lockValue));
    FpMinMaxValue(current, FpMax(a, Multiply(maxHp, lockValue)));
  }

  /** With positive MaxHP the shared clamp is a plain minimum, whatever the bound. */
  lemma ClampValue(x: Raw, bound: Raw, maxHp: Raw)
    requires Denote(maxHp) > 0
    ensures Denote(ClampHp(x, bound, maxHp)) == MinI(Denote(x), MaxI(Denote(bound), 0))
  {
    assert Denote(ZERO) == 0;
    hide Denote, Compare;
  }

  lemma DirtyBoundBelowMax(maxHp: Raw, dirtyRatio: Raw)
    requires Denote(maxHp) > 0 && Denote(dirtyRatio) >= 0
    ensures Denote(DirtyBound(maxHp, dirtyRatio)) <= Denote(maxHp)
  {
    hide Denote, Decode, Encode;
    FixPointLaws.MulOrder(0, Decode(maxHp), Decode(dirtyRatio));
    var share := Multiply(maxHp, dirtyRatio);
    assert Decode(share) >= 0;
    assert Decode(Subtract(maxHp, share)) <= Decode(maxHp);
  }

  lemma AddBelow(current: Raw, delta: Raw)
    requires Denote(delta) <= 0
    ensures Denote(Add(current, delta)) <= Denote(current)
  {
    hide Denote, Decode, Encode;
  }

  /** What the next HP is.  Unlocked it is the candidate capped at the dirty bound, or at zero when
      that is negative, and never above MaxHP.  A triggered lock gives the floor capped at MaxHP,
      which is at least the least of the old HP, two and MaxHP.  No hit raises HP. */
  lemma NextHpClosedForm(s: Store, component: EntityId, current: Raw, maxHp: Raw, lock: LockHpResult, delta: Raw)
    requires Denote(maxHp) > 0
    requires ReadProperty(s, component, DIRTY_HP_RATIO).Ok?
    requires Denote(ReadProperty(s, component, DIRTY_HP_RATIO).value) >= 0
    ensures NextHp(s, component, current, maxHp, lock, delta).Ok?
    ensures var y := Denote(NextHp(s, component, current, maxHp, lock, delta).value);
      var bound := Denote(DirtyBound(maxHp, ReadProperty(s, component, DIRTY_HP_RATIO).value));
      && (if Triggers(current, maxHp, lock, delta)
          then y == MinI(Denote(LockFloor(current, maxHp, lock.value)), Denote(maxHp))
               && y >= MinI(Denote(current), MinI(TWO, Denote(maxHp)))
          else y == MinI(Denote(Add(current, delta)), MaxI(bound, 0)))
      && y <= Denote(maxHp)
      && (Denote(delta) <= 0 ==> y <= Denote(current))
  {
    hide Denote, Add, Compare, Multiply, ClampHp, LockFloor, DirtyBound;
    var dirtyRatio := ReadProperty(s, component, DIRTY_HP_RATIO).value;
    DirtyBoundBelowMax(maxHp, dirtyRatio);
    LockFloorValue(current, maxHp, lock.value);
    if Denote(delta) <= 0 {
      AddBelow(current, delta);
    }
    ClampValue(LockFloor(current, maxHp, lock.value), maxHp, maxHp);
    ClampValue(Add(current, delta), DirtyBound(maxHp, dirtyRatio), maxHp);
  }

  /** The highest value an unlocked hit can leave. */
  function Ceiling(maxHp: Raw, dirtyRatio: Raw): int {
    MaxI(Denote(DirtyBound(maxHp, dirtyRatio)), 0)
  }

  /** A stronger hit never leaves more HP on one side of the lock boundary; across it, exactly when
      the capped floor does not lie above the ceiling for unlocked hits, in particular when the old
      HP does not. */
  lemma NextHpMonotone(s: Store, component: EntityId, current: Raw, maxHp: Raw, lock: LockHpResult, delta: Raw, delta': Raw)
    requires Denote(maxHp) > 0 && LessEqual(delta, delta')
    requires ReadProperty(s, component, DIRTY_HP_RATIO).Ok?
    requires Denote(ReadProperty(s, component, DIRTY_HP_RATIO).value) >= 0
    ensures NextHp(s, component, current, maxHp, lock, delta).Ok? && NextHp(s, component, current, maxHp, lock, delta').Ok?
    ensures var y, y' := NextHp(s, component, current, maxHp, lock, delta).value, NextHp(s, component, current, maxHp, lock, delta').value;
      var ceiling := Ceiling(maxHp, ReadProperty(s, component, DIRTY_HP_RATIO).value);
      var floor := MinI(Denote(LockFloor(current, maxHp, lock.value)), Denote(maxHp));
      && (Triggers(current, maxHp, lock, delta') ==> Triggers(current, maxHp, lock, delta))
      && (LessEqual(y, y') <==>
           (Triggers(current, maxHp, lock, delta) && !Triggers(current, maxHp, lock, delta') ==> floor <= ceiling))
      && (Denote(current) <= ceiling ==> LessEqual(y, y'))
  {
    hide Denote, Add, Compare, Multiply, LockFloor, DirtyBound, NextHp;
    NextHpClosedForm(s, component, current, maxHp, lock, delta);
    NextHpClosedForm(s, component, current, maxHp, lock, delta');
    LockFloorValue(current, maxHp, lock.value);
    FixPointLaws.AddMonotone(current, current, delta, delta');
  }

  // -------------------------------------------------------------------------
  // Writing the result
  // -------------------------------------------------------------------------

  ghost predicate Tracked(s: Store, component: EntityId, property: int) {
    KeyOf(component, property) in s.entries && TracksSlotZero(s.entries[KeyOf(component, property)])
  }

  function ValueOf(s: Store, component: EntityId, property: int): Raw {
    if KeyOf(component, property) in s.entries then s.entries[KeyOf(component, property)].materialized else ZERO
  }

  lemma WriteTracked(s: Store, component: EntityId, property: int, v: Raw, shown: Option<Raw>)
    requires Tracked(s, component, property)
    ensures WriteProperty(s, component, property, v, shown).Ok?
    ensures var t := WriteProperty(s, component, property, v, shown).value;
      && Tracked(t, component, property) && ValueOf(t, component, property) == v
      && (forall k :: k in t.entries <==> k in s.entries)
      && (forall k :: k in s.entries && k != KeyOf(component, property) ==> t.entries[k] == s.entries[k])
  {
    SlotZeroTracks(s.entries[KeyOf(component, property)], v);
    hide Update, TracksSlotZero;
  }

  /** The hit spills over: the lock stops it, the gate is on, and it went below the floor. */
  predicate Spills(current: Raw, maxHp: Raw, lock: LockHpResult, delta: Raw, negativeHpGate: bool) {
    negativeHpGate && Triggers(current, maxHp, lock, delta) && IsPositive(Overflow(current, maxHp, lock, delta))
  }

  /** A hit on tracked entries leaves CurrentHP at the next HP, adds a spill to NegativeHP, and
      changes nothing else. */
  lemma HitWrites(s: Store, component: EntityId, current: Raw, maxHp: Raw, lock: LockHpResult, delta: Raw, negativeHpGate: bool)
    requires NextHp(s, component, current, maxHp, lock, delta).Ok? && Tracked(s, component, CURRENT_HP)
    requires negativeHpGate ==> Tracked(s, component, NEGATIVE_HP)
    ensures var (t, r) := Hit(s, component, current, maxHp, lock, delta, negativeHpGate);
      && r.Ok? && Tracked(t, component, CURRENT_HP)
      && ValueOf(t, component, CURRENT_HP) == NextHp(s, component, current, maxHp, lock, delta).value
      && r.value.newCurrent == ValueOf(t, component, CURRENT_HP)
      && (negativeHpGate ==> Tracked(t, component, NEGATIVE_HP))
      && ValueOf(t, component, NEGATIVE_HP) ==
           (if Spills(current, maxHp, lock, delta, negativeHpGate)
            then Add(ValueOf(s, component, NEGATIVE_HP), Overflow(current, maxHp, lock, delta))
            else ValueOf(s, component, NEGATIVE_HP))
      && (forall k :: k in s.entries && k != KeyOf(component, CURRENT_HP) && k != KeyOf(component, NEGATIVE_HP) ==>
           k in t.entries && t.entries[k] == s.entries[k])
  {
    hide NextHp, Overflow, Triggers, Add, Subtract, IsPositive, Compare, WriteProperty, TracksSlotZero;
    var y := NextHp(s, component, current, maxHp, lock, delta).value;
    WriteTracked(s, component, CURRENT_HP, y, None);
    var s1 := WriteProperty(s, component, CURRENT_HP, y, None).value;
    if Spills(current, maxHp, lock, delta, negativeHpGate) {
      var total := Add(ValueOf(s1, component, NEGATIVE_HP), Overflow(current, maxHp, lock, delta));
      WriteTracked(s1, component, NEGATIVE_HP, total, Some(total));
    }
  }

  // -------------------------------------------------------------------------
  // SetHP reaches its target
  // -------------------------------------------------------------------------

  lemma DeltaComesBack(target: Raw, current: Raw)
    requires OnGrid(target) && OnGrid(current) && INT64_MIN <= Decode(target) - Decode(current) <= INT64_MAX
    ensures Denote(Add(current, Subtract(target, current))) == Denote(target)
  {
    hide Denote, Decode, Encode, OnGrid;
    FixPointLaws.GridExact(target, current);
    FixPointLaws.GridExact(current, Subtract(target, current));
    FixPointLaws.DecodeMonotone(target, target);
    FixPointLaws.DecodeMonotone(current, current);
  }

  /** What SetHP asks of the HP it starts from and the target it aims at. */
  ghost predicate LowersExactly(current: Raw, target: Raw, ceiling: int) {
    && OnGrid(current) && Denote(current) <= ceiling
    && Denote(target) < Denote(current) && INT64_MIN <= Decode(target) - Decode(current) <= INT64_MAX
  }

  lemma NextHpHitsTarget(s: Store, component: EntityId, current: Raw, maxHp: Raw, lock: LockHpResult, target: Raw)
    requires ReadProperty(s, component, DIRTY_HP_RATIO).Ok?
    requires Denote(maxHp) > 0 && Denote(ValueOf(s, component, DIRTY_HP_RATIO)) >= 0 && OnGrid(target)
    requires LowersExactly(current, target, Ceiling(maxHp, ValueOf(s, component, DIRTY_HP_RATIO)))
    ensures var delta := SetHpDelta(target, current);
      && Less(delta, ZERO)
      && NextHp(s, component, current, maxHp, lock, delta).Ok?
      && (Denote(NextHp(s, component, current, maxHp, lock, delta).value) == Denote(target) <==>
           !Triggers(current, maxHp, lock, delta))
  {
    hide Denote, Decode, Encode, OnGrid, Multiply, Compare, NextHp, DirtyBound, LockFloor;
    var delta := SetHpDelta(target, current);
    FixPointLaws.GridExact(target, current);
    DeltaIsNegative(delta, target, current);
    DeltaComesBack(target, current);
    NextHpClosedForm(s, component, current, maxHp, lock, delta);
    DirtyBoundBelowMax(maxHp, ValueOf(s, component, DIRTY_HP_RATIO));
    TriggeredAbove(current, maxHp, lock, delta);
    hide Triggers;
  }

  lemma ChangeIsHit(s: Store, records: seq<LockHpRecord>, component: EntityId, modifyValue: Raw, modifyRatio: Raw,
                    damageKind: int, negativeHpGate: bool)
    requires ReadProperty(s, component, CURRENT_HP).Ok? && ReadProperty(s, component, MAX_HP).Ok?
    requires var maxHp, current := ValueOf(s, component, MAX_HP), ValueOf(s, component, CURRENT_HP);
      Less(SetHpDelta(SetHpTarget(modifyValue, maxHp, modifyRatio), current), ZERO)
    ensures var maxHp, current := ValueOf(s, component, MAX_HP), ValueOf(s, component, CURRENT_HP);
      ChangeNegative(s, records, component, modifyValue, modifyRatio, damageKind, negativeHpGate) ==
        Hit(s, component, current, maxHp, LockOf(records, damageKind),
            SetHpDelta(SetHpTarget(modifyValue, maxHp, modifyRatio), current), negativeHpGate)
  {
    hide Hit, LockOf, SetHpDelta, SetHpTarget, Compare;
  }

  /** Setting HP to a lower target, from an on-grid HP not above the ceiling and without saturation,
      always succeeds, and it reaches the target exactly unless the lock stops it. */
  lemma SetHpReachesTarget(s: Store, records: seq<LockHpRecord>, component: EntityId, modifyValue: Raw, modifyRatio: Raw,
                           damageKind: int, negativeHpGate: bool)
    requires Tracked(s, component, CURRENT_HP) && (negativeHpGate ==> Tracked(s, component, NEGATIVE_HP))
    requires ReadProperty(s, component, MAX_HP).Ok? && ReadProperty(s, component, DIRTY_HP_RATIO).Ok?
    requires Denote(ValueOf(s, component, MAX_HP)) > 0 && Denote(ValueOf(s, component, DIRTY_HP_RATIO)) >= 0
    requires var maxHp := ValueOf(s, component, MAX_HP);
      LowersExactly(ValueOf(s, component, CURRENT_HP), SetHpTarget(modifyValue, maxHp, modifyRatio),
                    Ceiling(maxHp, ValueOf(s, component, DIRTY_HP_RATIO)))
    ensures var maxHp, current := ValueOf(s, component, MAX_HP), ValueOf(s, component, CURRENT_HP);
      var target := SetHpTarget(modifyValue, maxHp, modifyRatio);
      var (t, r) := ChangeNegative(s, records, component, modifyValue, modifyRatio, damageKind, negativeHpGate);
      && r.Ok?
      && (Equal(ValueOf(t, component, CURRENT_HP), target) <==>
           !Triggers(current, maxHp, LockOf(records, damageKind), SetHpDelta(target, current)))
  {
    var maxHp, current := ValueOf(s, component, MAX_HP), ValueOf(s, component, CURRENT_HP);
    var target := SetHpTarget(modifyValue, maxHp, modifyRatio);
    var lock := LockOf(records, damageKind);
    assert OnGrid(target);
    hide Denote, Decode, Compare, TracksSlotZero, LockOf, LowersExactly, Ceiling, Hit, NextHp, Triggers, ChangeNegative,
      SetHpTarget, SetHpDelta, OnGrid;
    NextHpHitsTarget(s, component, current, maxHp, lock, target);
    ChangeIsHit(s, records, component, modifyValue, modifyRatio, damageKind, negativeHpGate);
    HitWrites(s, component, current, maxHp, lock, SetHpDelta(target, current), negativeHpGate);
  }

  lemma DeltaIsNegative(delta: Raw, target: Raw, current: Raw)
    requires Denote(delta) == Denote(target) - Denote(current) && Denote(target) < Denote(current)
    ensures Less(delta, ZERO)
  {
    assert Denote(ZERO) == 0;
    hide Denote, Compare;
  }

  lemma TriggeredAbove(current: Raw, maxHp: Raw, lock: LockHpResult, delta: Raw)
    ensures Triggers(current, maxHp, lock, delta) ==>
      Denote(Add(current, delta)) < Denote(LockFloor(current, maxHp, lock.value))
  {
    hide Denote, Compare, Add, LockFloor;
  }

  // -------------------------------------------------------------------------
  // The overflow ledger
  // -------------------------------------------------------------------------

  datatype HitInput = HitInput(records: seq<LockHpRecord>, delta: Raw, damageKind: int)

  /** One hit with the NegativeHP gate on. */
  function TakeHit(s: Store, component: EntityId, hit: HitInput): Store {
    Transition(s, hit.records, component, hit.delta, hit.damageKind, 0, true).0
  }

  function TakeHits(s: Store, component: EntityId, hits: seq<HitInput>): Store
    decreases |hits|
  {
    if hits == [] then s else TakeHits(TakeHit(s, component, hits[0]), component, hits[1..])
  }

  /** Tracked on-grid HP entries with 0 < MaxHP and CurrentHP not above it. */
  ghost predicate LedgerReady(s: Store, component: EntityId) {
    && Tracked(s, component, CURRENT_HP) && Tracked(s, component, NEGATIVE_HP)
    && ReadProperty(s, component, MAX_HP).Ok?
    && OnGrid(ValueOf(s, component, CURRENT_HP)) && OnGrid(ValueOf(s, component, NEGATIVE_HP))
    && OnGrid(ValueOf(s, component, MAX_HP))
    && 0 < Denote(ValueOf(s, component, MAX_HP))
    && Denote(ValueOf(s, component, CURRENT_HP)) <= Denote(ValueOf(s, component, MAX_HP))
  }

  /** The lock stops this on-grid hit, and neither the candidate, the overflow nor the new NegativeHP
      saturates. */
  ghost predicate StoppedExactly(s: Store, component: EntityId, hit: HitInput) {
    var current, maxHp := ValueOf(s, component, CURRENT_HP), ValueOf(s, component, MAX_HP);
    var lock := LockOf(hit.records, hit.damageKind);
    var floor := LockFloor(current, maxHp, lock.value);
    && OnGrid(hit.delta) && Triggers(current, maxHp, lock, hit.delta)
    && INT64_MIN <= Decode(current) + Decode(hit.delta)
    && Decode(floor) - (Decode(current) + Decode(hit.delta)) <= INT64_MAX
    && INT64_MIN <= Decode(ValueOf(s, component, NEGATIVE_HP)) + Decode(floor) - (Decode(current) + Decode(hit.delta)) <= INT64_MAX
  }

  ghost predicate AllStopped(s: Store, component: EntityId, hits: seq<HitInput>)
    decreases |hits|
  {
    hits == [] || (StoppedExactly(s, component, hits[0]) && AllStopped(TakeHit(s, component, hits[0]), component, hits[1..]))
  }

  function TotalDelta(hits: seq<HitInput>): int {
    if hits == [] then 0 else Denote(hits[0].delta) + TotalDelta(hits[1..])
  }

  /** CurrentHP less NegativeHP, in units of 2^-33. */
  function NetHp(s: Store, component: EntityId): int {
    Denote(ValueOf(s, component, CURRENT_HP)) - Denote(ValueOf(s, component, NEGATIVE_HP))
  }

  lemma LockFloorOnGrid(current: Raw, maxHp: Raw, lockValue: Raw)
    requires OnGrid(current) && OnGrid(maxHp)
    ensures OnGrid(LockFloor(current, maxHp, lockValue))
  {
    assert OnGrid(Multiply(maxHp, lockValue)) && OnGrid(FromInt32(2));
    hide OnGrid, Multiply, FromInt32, Compare, Denote;
  }

  /** The arithmetic of one stopped hit. */
  lemma StoppedArithmetic(current: Raw, maxHp: Raw, negative: Raw, lock: LockHpResult, delta: Raw)
    requires OnGrid(current) && OnGrid(maxHp) && OnGrid(negative) && OnGrid(delta)
    requires 0 < Denote(maxHp) && Denote(current) <= Denote(maxHp) && Triggers(current, maxHp, lock, delta)
    requires var floor := LockFloor(current, maxHp, lock.value);
      && INT64_MIN <= Decode(current) + Decode(delta) && Decode(floor) - (Decode(current) + Decode(delta)) <= INT64_MAX
      && INT64_MIN <= Decode(negative) + Decode(floor) - (Decode(current) + Decode(delta)) <= INT64_MAX
    ensures var floor := LockFloor(current, maxHp, lock.value);
      var y := ClampHp(floor, maxHp, maxHp);
      var overflow := Overflow(current, maxHp, lock, delta);
      && IsPositive(overflow) && OnGrid(Add(negative, overflow)) && OnGrid(y)
      && Denote(y) - Denote(Add(negative, overflow)) == Denote(current) - Denote(negative) + Denote(delta)
      && Denote(y) <= Denote(maxHp)
  {
    var floor := LockFloor(current, maxHp, lock.value);
    var candidate := Add(current, delta);
    TriggeredAbove(current, maxHp, lock, delta);
    LockFloorValue(current, maxHp, lock.value);
    LockFloorOnGrid(current, maxHp, lock.value);
    ClampValue(floor, maxHp, maxHp);
    ClampOnGrid(floor, maxHp);
    hide Denote, Decode, Encode, OnGrid, Multiply, Compare, LockFloor, IsPositive, ClampHp;
    FixPointLaws.DecodeMonotone(current, current);
    FixPointLaws.DecodeMonotone(delta, delta);
    FixPointLaws.DecodeMonotone(floor, floor);
    FixPointLaws.DecodeMonotone(negative, negative);
    CandidateBounded(current, delta, floor);
    FixPointLaws.GridExact(current, delta);
    FixPointLaws.GridExact(floor, candidate);
    FixPointLaws.GridExact(negative, Subtract(floor, candidate));
  }

  lemma ClampOnGrid(floor: Raw, maxHp: Raw)
    requires OnGrid(floor) && OnGrid(maxHp)
    ensures OnGrid(ClampHp(floor, maxHp, maxHp))
  {
    assert OnGrid(ZERO);
    hide OnGrid, Compare, Denote;
  }

  /** A candidate below the floor did not saturate upward. */
  lemma CandidateBounded(current: Raw, delta: Raw, floor: Raw)
    requires OnGrid(current) && OnGrid(delta) && OnGrid(floor)
    requires Denote(Add(current, delta)) < Denote(floor) && INT64_MIN <= Decode(current) + Decode(delta)
    ensures Decode(current) + Decode(delta) <= INT64_MAX
  {
    hide Denote, Decode, Encode, OnGrid;
    FixPointLaws.DecodeMonotone(floor, floor);
  }

  lemma StoppedHit(s: Store, component: EntityId, hit: HitInput)
    requires LedgerReady(s, component) && StoppedExactly(s, component, hit)
    ensures LedgerReady(TakeHit(s, component, hit), component)
    ensures NetHp(TakeHit(s, component, hit), component) == NetHp(s, component) + Denote(hit.delta)
  {
    hide Denote, Decode, OnGrid, TracksSlotZero, LockOf, LockFloor, IsPositive, Add, Compare, ClampHp, Overflow, Hit, Triggers;
    var current, maxHp := ValueOf(s, component, CURRENT_HP), ValueOf(s, component, MAX_HP);
    var lock := LockOf(hit.records, hit.damageKind);
    StoppedArithmetic(current, maxHp, ValueOf(s, component, NEGATIVE_HP), lock, hit.delta);
    HitWrites(s, component, current, maxHp, lock, hit.delta, true);
    assert TakeHit(s, component, hit) == Hit(s, component, current, maxHp, lock, hit.delta, true).0;
    assert NextHp(s, component, current, maxHp, lock, hit.delta) == Ok(ClampHp(LockFloor(current, maxHp, lock.value), maxHp, maxHp));
    hide TakeHit, NextHp;
  }

  /** Conservation: over any run of hits that the lock stops exactly, CurrentHP less NegativeHP
      changes by exactly the sum of the deltas. */
  lemma {:induction false} LedgerConserves(s: Store, component: EntityId, hits: seq<HitInput>)
    requires LedgerReady(s, component) && AllStopped(s, component, hits)
    ensures LedgerReady(TakeHits(s, component, hits), component)
    ensures NetHp(TakeHits(s, component, hits), component) == NetHp(s, component) + TotalDelta(hits)
    decreases |hits|
  {
    hide LedgerReady, StoppedExactly, TakeHit, NetHp, Denote;
    if hits != [] {
      StoppedHit(s, component, hits[0]);
      LedgerConserves(TakeHit(s, component, hits[0]), component, hits[1..]);
    }
  }

  // -------------------------------------------------------------------------
  // When a hit succeeds, and what it reports
  // -------------------------------------------------------------------------

  /** The entry exists and a slot-0 write of it is not refused. */
  predicate Writable(s: Store, key: EntryKey) {
    key in s.entries && s.entries[key].value != [] && Supported(s.entries[key])
  }

  lemma WriteSucceedsIff(s: Store, component: EntityId, property: int, v: Raw, shown: Option<Raw>)
    ensures WriteProperty(s, component, property, v, shown).Ok? <==> Writable(s, KeyOf(component, property))
    ensures WriteProperty(s, component, property, v, shown).Ok? ==>
      var t, k := WriteProperty(s, component, property, v, shown).value, KeyOf(component, property);
      && (forall key :: key in t.entries <==> key in s.entries)
      && (forall key :: key in s.entries && key != k ==> t.entries[key] == s.entries[key])
      && Update(s.entries[k], 0, v) == Ok(t.entries[k])
  {
    hide Update, Supported;
    if KeyOf(component, property) in s.entries {
      UpdateShape(s.entries[KeyOf(component, property)], 0, v);
    }
  }

  /** Without a positive MaxHP no lock stops a hit, and the clamp only cuts at MaxHP what reaches the
      bound. */
  lemma NoLockWithoutMaxHp(s: Store, component: EntityId, current: Raw, maxHp: Raw, lock: LockHpResult, delta: Raw)
    requires Denote(maxHp) <= 0 && ReadProperty(s, component, DIRTY_HP_RATIO).Ok?
    ensures !Triggers(current, maxHp, lock, delta) && NextHp(s, component, current, maxHp, lock, delta).Ok?
    ensures var candidate := Denote(Add(current, delta));
      var bound := Denote(DirtyBound(maxHp, ReadProperty(s, component, DIRTY_HP_RATIO).value));
      Denote(NextHp(s, component, current, maxHp, lock, delta).value) ==
        if candidate < bound then candidate else MinI(candidate, Denote(maxHp))
  {
    assert Denote(ZERO) == 0;
    hide Denote, Compare, Add, DirtyBound, LockFloor, ReadProperty;
  }

  /** A hit succeeds exactly in mode 0, with CurrentHP and MaxHP present, with the dirty ratio present
      unless the lock stops it, and with the entries it writes writable. */
  lemma HitSucceedsIff(s: Store, records: seq<LockHpRecord>, component: EntityId, delta: Raw, damageKind: int, mode: int,
                       gate: bool)
    ensures Transition(s, records, component, delta, damageKind, mode, gate).1.Ok? <==>
      && mode == 0 && EntryKey(component, 10) in s.entries && EntryKey(component, 1) in s.entries
      && var current, maxHp, lock := ValueOf(s, component, CURRENT_HP), ValueOf(s, component, MAX_HP), LockOf(records, damageKind);
      && (Triggers(current, maxHp, lock, delta) || EntryKey(component, 7) in s.entries)
      && Writable(s, EntryKey(component, 10))
      && (Spills(current, maxHp, lock, delta, gate) ==> Writable(s, EntryKey(component, 9)))
  {
    hide LockOf, Hit, Triggers, Spills, Writable;
    if mode == 0 && KeyOf(component, CURRENT_HP) in s.entries && KeyOf(component, MAX_HP) in s.entries {
      PartsSucceedIff(s, component, ValueOf(s, component, CURRENT_HP), ValueOf(s, component, MAX_HP), LockOf(records, damageKind),
                      delta, gate);
    }
  }

  lemma PartsSucceedIff(s: Store, component: EntityId, current: Raw, maxHp: Raw, lock: LockHpResult, delta: Raw, gate: bool)
    ensures Hit(s, component, current, maxHp, lock, delta, gate).1.Ok? <==>
      && (Triggers(current, maxHp, lock, delta) || KeyOf(component, DIRTY_HP_RATIO) in s.entries)
      && Writable(s, KeyOf(component, CURRENT_HP))
      && (Spills(current, maxHp, lock, delta, gate) ==> Writable(s, KeyOf(component, NEGATIVE_HP)))
  {
    hide Triggers, WriteProperty, Add, Subtract, Compare, IsPositive, Overflow, ClampHp, LockFloor, DirtyBound, Supported;
    var next := NextHp(s, component, current, maxHp, lock, delta);
    if next.Ok? {
      WriteSucceedsIff(s, component, CURRENT_HP, next.value, None);
      if WriteProperty(s, component, CURRENT_HP, next.value, None).Ok? {
        var s1 := WriteProperty(s, component, CURRENT_HP, next.value, None).value;
        if KeyOf(component, NEGATIVE_HP) in s.entries {
          assert s1.entries[KeyOf(component, NEGATIVE_HP)] == s.entries[KeyOf(component, NEGATIVE_HP)];
          var total := Add(ValueOf(s, component, NEGATIVE_HP), Overflow(current, maxHp, lock, delta));
          WriteSucceedsIff(s1, component, NEGATIVE_HP, total, Some(total));
        }
      }
    }
  }

  /** What a successful hit reports: the old and the written HP, the clamped value and whether it is
      not positive, and what was spilled.  The applied delta is the change of HP, or what the hit
      asked for, sign reversed, when it spilled. */
  lemma HitReport(s: Store, component: EntityId, current: Raw, maxHp: Raw, lock: LockHpResult, delta: Raw, gate: bool)
    requires Hit(s, component, current, maxHp, lock, delta, gate).1.Ok?
    ensures var (t, r) := Hit(s, component, current, maxHp, lock, delta, gate);
      var x, spills := r.value, Spills(current, maxHp, lock, delta, gate);
      && x.oldCurrent == current && x.newCurrent == ValueOf(t, component, CURRENT_HP) && x.lock == lock
      && NextHp(s, component, current, maxHp, lock, delta) == Ok(x.y) && (x.negativeRecordBoundary <==> Denote(x.y) <= 0)
      && (x.triggered <==> Triggers(current, maxHp, lock, delta)) && (!x.triggered ==> x.overflow == ZERO)
      && (if spills
          then && x.oldNegative == Some(ValueOf(s, component, NEGATIVE_HP))
               && x.newNegative == Some(Add(ValueOf(s, component, NEGATIVE_HP), x.overflow))
          else x.oldNegative == None && x.newNegative == None)
      && (!spills && OnGrid(current) && OnGrid(x.newCurrent) && FixPointLaws.Fits(Decode(x.newCurrent) - Decode(current)) ==>
           Denote(x.appliedDelta) == Denote(x.newCurrent) - Denote(current))
      && (spills && OnGrid(delta) && FixPointLaws.Fits(-Decode(delta)) ==> Denote(x.appliedDelta) == -Denote(delta))
  {
    hide Triggers, WriteProperty, Add, Subtract, IsPositive, Overflow, ClampHp, LockFloor, DirtyBound, NextHp, Decode, OnGrid, Denote,
      Compare;
    ZeroFacts();
    var next := NextHp(s, component, current, maxHp, lock, delta);
    WriteSucceedsIff(s, component, CURRENT_HP, next.value, None);
    var s1 := WriteProperty(s, component, CURRENT_HP, next.value, None).value;
    if OnGrid(ValueOf(s1, component, CURRENT_HP)) && OnGrid(current) {
      FixPointLaws.GridExact(ValueOf(s1, component, CURRENT_HP), current);
    }
    if OnGrid(delta) {
      FixPointLaws.GridExact(ZERO, delta);
    }
    var overflow := Overflow(current, maxHp, lock, delta);
    if Spills(current, maxHp, lock, delta, gate) {
      var total := Add(ValueOf(s1, component, NEGATIVE_HP), overflow);
      assert KeyOf(component, NEGATIVE_HP) != KeyOf(component, CURRENT_HP);
      WriteSucceedsIff(s1, component, NEGATIVE_HP, total, Some(total));
    }
    assert !Triggers(current, maxHp, lock, delta) ==> overflow == ZERO by {
      NoOverflow(current, maxHp, lock, delta);
    }
  }

  lemma ZeroFacts()
    ensures Denote(ZERO) == 0 && Decode(ZERO) == 0 && OnGrid(ZERO)
  {
  }

  lemma NoOverflow(current: Raw, maxHp: Raw, lock: LockHpResult, delta: Raw)
    ensures !Triggers(current, maxHp, lock, delta) ==> Overflow(current, maxHp, lock, delta) == ZERO
  {
    hide Triggers;
  }

  /** The record a write of slot 0 leaves in the log. */
  function Changed(component: EntityId, property: int, before: Raw, after: Raw): Boundary {
    Boundary(AfterPropertyChanged, EntryKey(component, property), 0, before, after)
  }

  lemma WriteLogs(s: Store, component: EntityId, property: int, v: Raw, shown: Option<Raw>)
    requires WriteProperty(s, component, property, v, shown).Ok?
    ensures var t := WriteProperty(s, component, property, v, shown).value;
      t.log == s.log + [Changed(component, property, ValueOf(s, component, property), shown.GetOr(ValueOf(t, component, property)))]
  {
    hide Update;
  }

  /** A hit logs its change of CurrentHP, and then that of NegativeHP when it spills over.  A hit that
      fails to write NegativeHP has written and logged CurrentHP; any other failure leaves no trace. */
  lemma HitLogs(s: Store, component: EntityId, current: Raw, maxHp: Raw, lock: LockHpResult, delta: Raw, gate: bool)
    ensures var (t, r) := Hit(s, component, current, maxHp, lock, delta, gate);
      var hp := Changed(component, 10, ValueOf(s, component, CURRENT_HP), ValueOf(t, component, CURRENT_HP));
      match r
      case Ok(x) =>
        t.log == s.log + if x.newNegative.Some? then [hp, Changed(component, 9, x.oldNegative.value, x.newNegative.value)] else [hp]
      case Err(_) =>
        || t == s
        || (Spills(current, maxHp, lock, delta, gate) && !Writable(s, EntryKey(component, 9)) && t.log == s.log + [hp]
            && forall k :: k in s.entries && k != EntryKey(component, 10) ==> k in t.entries && t.entries[k] == s.entries[k])
  {
    hide Triggers, WriteProperty, Add, Subtract, IsPositive, Overflow, NextHp, Compare, Writable, Changed, Spill;
    var next := NextHp(s, component, current, maxHp, lock, delta);
    if next.Ok? {
      WriteSucceedsIff(s, component, CURRENT_HP, next.value, None);
      if WriteProperty(s, component, CURRENT_HP, next.value, None).Ok? {
        WriteLogs(s, component, CURRENT_HP, next.value, None);
        var s1 := WriteProperty(s, component, CURRENT_HP, next.value, None).value;
        var written := ValueOf(s1, component, CURRENT_HP);
        WritableIsThere(s, KeyOf(component, CURRENT_HP));
        var overflow := Overflow(current, maxHp, lock, delta);
        var result := HpResult(current, written, Subtract(written, current), lock, Triggers(current, maxHp, lock, delta), overflow,
                               next.value, None, None, LessEqual(next.value, ZERO));
        SpillLogs(s1, component, overflow, delta, result);
        if Spills(current, maxHp, lock, delta, gate) {
          assert Hit(s, component, current, maxHp, lock, delta, gate) == Spill(s1, component, overflow, delta, result);
        }
        assert forall hp, negative: Boundary :: s.log + [hp] + [negative] == s.log + [hp, negative];
        WritableKept(s, s1, EntryKey(component, 9));
      }
    }
  }

  lemma SpillLogs(s1: Store, component: EntityId, overflow: Raw, delta: Raw, result: HpResult)
    ensures var (t, r) := Spill(s1, component, overflow, delta, result);
      && ValueOf(t, component, CURRENT_HP) == ValueOf(s1, component, CURRENT_HP)
      && match r
         case Ok(x) =>
           && x.oldNegative.Some? && x.newNegative.Some?
           && t.log == s1.log + [Changed(component, 9, x.oldNegative.value, x.newNegative.value)]
         case Err(_) => t == s1 && !Writable(s1, EntryKey(component, 9))
  {
    hide WriteProperty, Add, Subtract, Writable, Changed;
    var total := Add(ValueOf(s1, component, NEGATIVE_HP), overflow);
    assert KeyOf(component, NEGATIVE_HP) == EntryKey(component, 9) != KeyOf(component, CURRENT_HP);
    WriteSucceedsIff(s1, component, NEGATIVE_HP, total, Some(total));
    WritableIsThere(s1, EntryKey(component, 9));
    if WriteProperty(s1, component, NEGATIVE_HP, total, Some(total)).Ok? {
      WriteLogs(s1, component, NEGATIVE_HP, total, Some(total));
    }
  }

  lemma WritableIsThere(s: Store, key: EntryKey)
    ensures Writable(s, key) ==> key in s.entries
  {
  }

  lemma WritableKept(s: Store, t: Store, key: EntryKey)
    requires key in s.entries <==> key in t.entries
    requires key in s.entries ==> t.entries[key] == s.entries[key]
    ensures Writable(t, key) <==> Writable(s, key)
  {
    hide Supported;
  }

  /** Why a hit is refused before anything is written: first for its mode, then for a missing
      property, then because CurrentHP cannot be written. */
  lemma HitRefusals(s: Store, records: seq<LockHpRecord>, component: EntityId, delta: Raw, damageKind: int, mode: int, gate: bool)
    ensures var r := Transition(s, records, component, delta, damageKind, mode, gate);
      var hp := EntryKey(component, 10);
      var stopped := Triggers(ValueOf(s, component, CURRENT_HP), ValueOf(s, component, MAX_HP), LockOf(records, damageKind), delta);
      if mode != 0 then r == (s, Err(UnsupportedMode(mode)))
      else if hp !in s.entries || EntryKey(component, 1) !in s.entries || (!stopped && EntryKey(component, 7) !in s.entries) then
        r == (s, Err(HpProperty(EntryNotFound)))
      else if !Writable(s, hp) then r == (s, Err(HpProperty(WriteRefusal(s.entries[hp], 0))))
      else r.1.Err? ==> r.1.error.HpProperty?
  {
    hide Triggers, Update, Add, Subtract, IsPositive, Overflow, ClampHp, LockFloor, DirtyBound, Compare, LockOf, Supported, WriteRefusal;
    if EntryKey(component, 10) in s.entries {
      var r := s.entries[EntryKey(component, 10)];
      forall v: Raw
        ensures Update(r, 0, v).Ok? <==> r.value != [] && Supported(r)
        ensures Update(r, 0, v).Err? ==> Update(r, 0, v).error == WriteRefusal(r, 0)
      {
        UpdateShape(r, 0, v);
        SlotRefusals(r, 0, v);
      }
    }
  }
}

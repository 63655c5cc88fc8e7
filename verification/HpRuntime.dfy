/** The HP transition: lock scan, lock floor, dirty-HP clamp and overflow ledger. */
module HpRuntime {
  import opened Wrappers
  import opened FixPoint
  import opened PropertyEntries
  import opened BattleStates
  import opened PropertyRuntime

  const CURRENT_HP: int := 10
  const NEGATIVE_HP: int := 9
  const MAX_HP: int := 1
  const DIRTY_HP_RATIO: int := 7

  datatype HpError =
    | UnsupportedMode(mode: int)
    | UnsupportedPositiveDelta(delta: Raw)
    | HpProperty(e: PropertyError)

  datatype LockHpResult = LockHpResult(success: bool, value: Raw, actions: seq<string>)

  datatype HpResult = HpResult(
    oldCurrent: Raw,
    newCurrent: Raw,
    appliedDelta: Raw,
    lock: LockHpResult,
    triggered: bool,
    overflow: Raw,
    y: Raw,
    oldNegative: Option<Raw>,
    newNegative: Option<Raw>,
    negativeRecordBoundary: bool)

  // -------------------------------------------------------------------------
  // Lock scan
  // -------------------------------------------------------------------------

  predicate Qualifies(r: LockHpRecord, damageKind: int) {
    r.kind >= damageKind
  }

  /** The last qualifying index below `n`. */
  function LastQualifying(records: seq<LockHpRecord>, damageKind: int, n: nat): (h: Option<nat>)
    requires n <= |records|
    ensures h.Some? ==> h.value < n && Qualifies(records[h.value], damageKind)
  {
    if n == 0 then None
    else if Qualifies(records[n - 1], damageKind) then Some(n - 1)
    else LastQualifying(records, damageKind, n - 1)
  }

  /** From a block that starts at `best`, reach down over value-equal qualifying records below `n`,
      passing over the others of too low a kind. */
  function BlockStart(records: seq<LockHpRecord>, damageKind: int, v: Raw, n: nat, best: nat): (b: nat)
    requires n <= best < |records|
    ensures b <= best
  {
    if n == 0 then best
    else if !Qualifies(records[n - 1], damageKind) then BlockStart(records, damageKind, v, n - 1, best)
    else if Equal(v, records[n - 1].value) then BlockStart(records, damageKind, v, n - 1, n - 1)
    else best
  }

  function Actions(records: seq<LockHpRecord>, from: nat): (a: seq<string>)
    requires from <= |records|
    ensures |a| == |records| - from
    ensures forall i :: 0 <= i < |a| ==> a[i] == records[from + i].actionRef
  {
    seq(|records| - from, i requires 0 <= i < |records| - from => records[from + i].actionRef)
  }

  const NO_LOCK := LockHpResult(false, 0, [])

  function LockOf(records: seq<LockHpRecord>, damageKind: int): LockHpResult {
    match LastQualifying(records, damageKind, |records|)
    case None => NO_LOCK
    case Some(h) =>
      var v := records[h].value;
      LockHpResult(true, v, Actions(records, BlockStart(records, damageKind, v, h, h)))
  }

  method TryGetLockHp(records: seq<LockHpRecord>, damageKind: int) returns (r: LockHpResult)
    ensures r == LockOf(records, damageKind)
  {
    hide Compare;
    var selected: Option<Raw> := None;
    var best := 0;
    var index := |records|;
    while index > 0
      invariant 0 <= index <= |records|
      invariant selected.None? ==>
        LastQualifying(records, damageKind, |records|) == LastQualifying(records, damageKind, index)
      invariant selected.Some? ==> LastQualifying(records, damageKind, |records|).Some? && index <= best < |records|
      invariant selected.Some? ==>
        var h := LastQualifying(records, damageKind, |records|).value;
        selected.value == records[h].value &&
        BlockStart(records, damageKind, records[h].value, h, h) ==
          BlockStart(records, damageKind, selected.value, index, best)
    {
      var record := records[index - 1];
      if record.kind >= damageKind {
        if selected.None? {
          selected := Some(record.value);
          best := index - 1;
        } else if Equal(selected.value, record.value) {
          best := index - 1;
        } else {
          break;
        }
      }
      index := index - 1;
    }
    if selected.None? {
      return NO_LOCK;
    }
    r := LockHpResult(true, selected.value, Actions(records, best));
  }

  // -------------------------------------------------------------------------
  // Specification
  // -------------------------------------------------------------------------

  function FpMin(left: Raw, right: Raw): Raw {
    if Less(left, right) then left else right
  }

  function FpMax(left: Raw, right: Raw): Raw {
    if Greater(left, right) then left else right
  }

  /** The floor below which a triggered lock does not let HP fall. */
  function LockFloor(current: Raw, maxHp: Raw, lockValue: Raw): Raw {
    FpMin(current, FpMax(FpMin(FromInt32(2), maxHp), Multiply(maxHp, lockValue)))
  }

  /** The dirty-HP bound: MaxHP less its dirty share. */
  function DirtyBound(maxHp: Raw, dirtyRatio: Raw): Raw {
    Subtract(maxHp, Multiply(maxHp, dirtyRatio))
  }

  function ClampHp(x: Raw, bound: Raw, maxHp: Raw): Raw {
    if Less(x, bound) then x
    else if GreaterEqual(x, ZERO) && Greater(maxHp, ZERO) then
      if Greater(bound, ZERO) then bound else ZERO
    else FpMin(x, maxHp)
  }

  /** The lock stops this hit: it applies, MaxHP is positive, and the hit would pass the floor. */
  predicate Triggers(current: Raw, maxHp: Raw, lock: LockHpResult, delta: Raw) {
    && lock.success && Greater(maxHp, ZERO)
    && Less(Add(current, delta), LockFloor(current, maxHp, lock.value))
  }

  function KeyOf(component: EntityId, property: int): EntryKey {
    EntryKey(component, property)
  }

  function ReadProperty(s: Store, component: EntityId, property: int): Result<Raw, HpError> {
    if KeyOf(component, property) in s.entries then Ok(s.entries[KeyOf(component, property)].materialized)
    else Err(HpProperty(EntryNotFound))
  }

  /** Write slot 0 of a property; the boundary reports `shown` as the new value, or what the entry
      then reads. */
  function WriteProperty(s: Store, component: EntityId, property: int, v: Raw, shown: Option<Raw>): Result<Store, HpError> {
    var key := KeyOf(component, property);
    if key !in s.entries then Err(HpProperty(EntryNotFound))
    else
      match Update(s.entries[key], 0, v)
      case Err(e) => Err(HpProperty(e))
      case Ok(r) =>
        Ok(s.(entries := s.entries[key := r],
              log := s.log + [Boundary(AfterPropertyChanged, key, 0, s.entries[key].materialized,
                                       shown.GetOr(r.materialized))]))
  }

  /** The value HP is to take: the clamped floor of a triggered lock, else the clamped candidate
      under the dirty bound, which only then is read. */
  function NextHp(s: Store, component: EntityId, current: Raw, maxHp: Raw, lock: LockHpResult, delta: Raw)
    : Result<Raw, HpError>
  {
    if Triggers(current, maxHp, lock, delta) then
      Ok(ClampHp(LockFloor(current, maxHp, lock.value), maxHp, maxHp))
    else
      match ReadProperty(s, component, DIRTY_HP_RATIO)
      case Err(e) => Err(e)
      case Ok(dirtyRatio) => Ok(ClampHp(Add(current, delta), DirtyBound(maxHp, dirtyRatio), maxHp))
  }

  /** How far a triggering hit went below the floor. */
  function Overflow(current: Raw, maxHp: Raw, lock: LockHpResult, delta: Raw): Raw {
    if Triggers(current, maxHp, lock, delta)
    then Subtract(LockFloor(current, maxHp, lock.value), Add(current, delta)) else ZERO
  }

  function Transition(s: Store, records: seq<LockHpRecord>, component: EntityId, delta: Raw, damageKind: int,
                      mode: int, negativeHpGate: bool): (Store, Result<HpResult, HpError>)
  {
    if mode != 0 then (s, Err(UnsupportedMode(mode)))
    else
      match ReadProperty(s, component, CURRENT_HP)
      case Err(e) => (s, Err(e))
      case Ok(current) =>
        match ReadProperty(s, component, MAX_HP)
        case Err(e) => (s, Err(e))
        case Ok(maxHp) => Hit(s, component, current, maxHp, LockOf(records, damageKind), delta, negativeHpGate)
  }

  function Hit(s: Store, component: EntityId, current: Raw, maxHp: Raw, lock: LockHpResult, delta: Raw,
               negativeHpGate: bool): (Store, Result<HpResult, HpError>)
  {
    match NextHp(s, component, current, maxHp, lock, delta)
    case Err(e) => (s, Err(e))
    case Ok(y) =>
      match WriteProperty(s, component, CURRENT_HP, y, None)
      case Err(e) => (s, Err(e))
      case Ok(s1) =>
        var written := s1.entries[KeyOf(component, CURRENT_HP)].materialized;
        var triggered := Triggers(current, maxHp, lock, delta);
        var overflow := Overflow(current, maxHp, lock, delta);
        var result := HpResult(current, written, Subtract(written, current), lock, triggered, overflow, y, None, None,
                               LessEqual(y, ZERO));
        if !(negativeHpGate && triggered && IsPositive(overflow)) then (s1, Ok(result))
        else Spill(s1, component, overflow, delta, result)
  }

  /** Add the overflow to NegativeHP; CurrentHP stays written when that fails. */
  function Spill(s1: Store, component: EntityId, overflow: Raw, delta: Raw, result: HpResult)
    : (Store, Result<HpResult, HpError>)
  {
    match ReadProperty(s1, component, NEGATIVE_HP)
    case Err(e) => (s1, Err(e))
    case Ok(negative) =>
      var total := Add(negative, overflow);
      match WriteProperty(s1, component, NEGATIVE_HP, total, Some(total))
      case Err(e) => (s1, Err(e))
      case Ok(s2) =>
        (s2, Ok(result.(oldNegative := Some(negative), newNegative := Some(total),
                        appliedDelta := Subtract(ZERO, delta))))
  }

  function SetHpTarget(modifyValue: Raw, maxHp: Raw, modifyRatio: Raw): Raw {
    Add(modifyValue, Multiply(maxHp, modifyRatio))
  }

  function SetHpDelta(target: Raw, current: Raw): Raw {
    Subtract(target, current)
  }

  /** Set HP to a target below it; a delta that is not negative is refused. */
  function ChangeNegative(s: Store, records: seq<LockHpRecord>, component: EntityId, modifyValue: Raw, modifyRatio: Raw,
                          damageKind: int, negativeHpGate: bool): (Store, Result<HpResult, HpError>)
  {
    match ReadProperty(s, component, CURRENT_HP)
    case Err(e) => (s, Err(e))
    case Ok(current) =>
      match ReadProperty(s, component, MAX_HP)
      case Err(e) => (s, Err(e))
      case Ok(maxHp) =>
        var delta := SetHpDelta(SetHpTarget(modifyValue, maxHp, modifyRatio), current);
        if !Less(delta, ZERO) then (s, Err(UnsupportedPositiveDelta(delta)))
        else Transition(s, records, component, delta, damageKind, 0, negativeHpGate)
  }

  // -------------------------------------------------------------------------
  // Runtime
  // -------------------------------------------------------------------------

  ghost function RecordsFor(state: BattleState, component: EntityId): seq<LockHpRecord>
    reads state
  {
    if component in state.lockRecords then state.lockRecords[component] else []
  }

  method WriteSlotZero(state: BattleState, component: EntityId, property: int, v: Raw, shown: Option<Raw>, sink: BoundaryLog)
    returns (failure: Option<HpError>)
    modifies state`entries, sink
    ensures match WriteProperty(old(StoreOf(state, sink)), component, property, v, shown)
      case Ok(s) => failure == None && StoreOf(state, sink) == s
      case Err(e) => failure == Some(e) && StoreOf(state, sink) == old(StoreOf(state, sink))
  {
    var key := KeyOf(component, property);
    if key !in state.entries {
      return Some(HpProperty(EntryNotFound));
    }
    var entry := new PropertyEntry.FromRecord(state.entries[key]);
    var before := entry.materialized;
    var rejected := entry.UpdateSourceSlot(0, v);
    if rejected.Some? {
      return Some(HpProperty(rejected.value));
    }
    state.entries := state.entries[key := entry.Record()];
    sink.items := sink.items + [Boundary(AfterPropertyChanged, key, 0, before, shown.GetOr(entry.materialized))];
    failure := None;
  }

  method DirectDamageHpTransition(state: BattleState, component: EntityId, delta: Raw, damageKind: int, mode: int,
                                  negativeHpGate: bool, sink: BoundaryLog)
    returns (r: Result<HpResult, HpError>)
    modifies state`entries, sink
    ensures (StoreOf(state, sink), r) ==
      Transition(old(StoreOf(state, sink)), old(RecordsFor(state, component)), component, delta, damageKind, mode, negativeHpGate)
  {
    hide Update, LockOf, Add, Subtract, Multiply, Compare, IsPositive, FromInt32;
    if mode != 0 {
      return Err(UnsupportedMode(mode));
    }
    if KeyOf(component, CURRENT_HP) !in state.entries || KeyOf(component, MAX_HP) !in state.entries {
      return Err(HpProperty(EntryNotFound));
    }
    var current := state.entries[KeyOf(component, CURRENT_HP)].materialized;
    var maxHp := state.entries[KeyOf(component, MAX_HP)].materialized;
    var candidate := Add(current, delta);
    var lock := TryGetLockHp(if component in state.lockRecords then state.lockRecords[component] else [], damageKind);

    var x, bound, overflow, triggered := candidate, maxHp, ZERO, false;
    if lock.success && Greater(maxHp, ZERO) {
      var t := FpMin(current, FpMax(FpMin(FromInt32(2), maxHp), Multiply(maxHp, lock.value)));
      if Less(candidate, t) {
        x, overflow, triggered := t, Subtract(t, candidate), true;
      }
    }
    if !triggered {
      if KeyOf(component, DIRTY_HP_RATIO) !in state.entries {
        return Err(HpProperty(EntryNotFound));
      }
      bound := DirtyBound(maxHp, state.entries[KeyOf(component, DIRTY_HP_RATIO)].materialized);
    }

    var y := ClampHp(x, bound, maxHp);
    assert NextHp(StoreOf(state, sink), component, current, maxHp, lock, delta) == Ok(y);
    var failure := WriteSlotZero(state, component, CURRENT_HP, y, None, sink);
    if failure.Some? {
      return Err(failure.value);
    }
    var written := state.entries[KeyOf(component, CURRENT_HP)].materialized;
    var result := HpResult(current, written, Subtract(written, current), lock, triggered, overflow, y, None, None,
                           LessEqual(y, ZERO));
    if negativeHpGate && triggered && IsPositive(overflow) {
      if KeyOf(component, NEGATIVE_HP) !in state.entries {
        return Err(HpProperty(EntryNotFound));
      }
      var negative := state.entries[KeyOf(component, NEGATIVE_HP)].materialized;
      var total := Add(negative, overflow);
      failure := WriteSlotZero(state, component, NEGATIVE_HP, total, Some(total), sink);
      if failure.Some? {
        return Err(failure.value);
      }
      result := result.(oldNegative := Some(negative), newNegative := Some(total), appliedDelta := Subtract(ZERO, delta));
    }
    r := Ok(result);
  }

  method DirectChangeHpMode1Negative(state: BattleState, component: EntityId, modifyValue: Raw, modifyRatio: Raw,
                                     damageKind: int, negativeHpGate: bool, sink: BoundaryLog)
    returns (r: Result<HpResult, HpError>)
    modifies state`entries, sink
    ensures (StoreOf(state, sink), r) ==
      ChangeNegative(old(StoreOf(state, sink)), old(RecordsFor(state, component)), component, modifyValue, modifyRatio,
                     damageKind, negativeHpGate)
  {
    hide Transition, SetHpDelta, SetHpTarget, Compare;
    if KeyOf(component, CURRENT_HP) !in state.entries || KeyOf(component, MAX_HP) !in state.entries {
      return Err(HpProperty(EntryNotFound));
    }
    var current := state.entries[KeyOf(component, CURRENT_HP)].materialized;
    var maxHp := state.entries[KeyOf(component, MAX_HP)].materialized;
    var target := SetHpTarget(modifyValue, maxHp, modifyRatio);
    var delta := SetHpDelta(target, current);
    if !Less(delta, ZERO) {
      return Err(UnsupportedPositiveDelta(delta));
    }
    r := DirectDamageHpTransition(state, component, delta, damageKind, 0, negativeHpGate, sink);
  }
}

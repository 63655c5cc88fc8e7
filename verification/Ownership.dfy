/** Who owns which source slot, over every run of stack, refresh, pop and source-0 writes. */
module Ownership {
  import opened Wrappers
  import opened FixPoint
  import opened PropertyEntries
  import opened BattleStates
  import opened PropertyRuntime
  import opened SlotLaws

  datatype Step =
    | Stack(m: ModifierRef, stateRaw: int, key: EntryKey, v: Raw, isRefresh: bool)
    | Pop(m: ModifierRef)
    | Modify(key: EntryKey, functionId: int, operand: Raw)

  function Apply(s: Store, step: Step): Store {
    match step
    case Stack(m, stateRaw, key, v, isRefresh) => StackContribution(s, m, stateRaw, key, v, isRefresh).0
    case Pop(m) => PopContributions(s, m).0
    case Modify(key, functionId, operand) =>
      match ModifySourceZero(s, key, functionId, operand)
      case Ok(s') => s'
      case Err(_) => s
  }

  function Run(s: Store, steps: seq<Step>): Store
    decreases |steps|
  {
    if steps == [] then s else Run(Apply(s, steps[0]), steps[1..])
  }

  // -------------------------------------------------------------------------
  // The invariant
  // -------------------------------------------------------------------------

  ghost predicate IsRecord(s: Store, m: ModifierRef, j: int) {
    m in s.owned && 0 <= j < |s.owned[m]|
  }

  ghost predicate PointsAt(c: Contribution, key: EntryKey, i: int) {
    c.key == key && c.slot == i
  }

  ghost predicate ValidRecord(s: Store, m: ModifierRef, c: Contribution) {
    && c.modifier == m && c.key in s.entries && Supported(s.entries[c.key])
    && 1 <= c.slot < |s.entries[c.key].value| && s.entries[c.key].active[c.slot]
  }

  /** Every record points at an active slot from index 1 upward. */
  ghost predicate RecordsPoint(s: Store) {
    forall m, j :: IsRecord(s, m, j) ==> ValidRecord(s, m, s.owned[m][j])
  }

  /** No two records, of one modifier or of two, share a slot. */
  ghost predicate NoSharing(s: Store) {
    forall m, i, m', j :: IsRecord(s, m, i) && IsRecord(s, m', j) && (m != m' || i != j) ==>
      !PointsAt(s.owned[m][i], s.owned[m'][j].key, s.owned[m'][j].slot)
  }

  ghost predicate HasOwner(s: Store, key: EntryKey, i: int) {
    exists m, j :: IsRecord(s, m, j) && PointsAt(s.owned[m][j], key, i)
  }

  /** Every active slot from index 1 upward is in some record. */
  ghost predicate NoOrphans(s: Store) {
    forall key, i :: key in s.entries && 1 <= i < |s.entries[key].value| && s.entries[key].active[i]
      ==> HasOwner(s, key, i)
  }

  ghost predicate EntriesSound(s: Store) {
    forall key :: key in s.entries ==> WellStamped(s.entries[key]) && InSync(s.entries[key])
  }

  ghost predicate Sound(s: Store) {
    EntriesSound(s) && RecordsPoint(s) && NoSharing(s) && NoOrphans(s)
  }

  // -------------------------------------------------------------------------
  // One step
  // -------------------------------------------------------------------------

  ghost predicate SameRecordLists(s: Store, t: Store) {
    && (forall m, j :: IsRecord(t, m, j) <==> IsRecord(s, m, j))
    && (forall m, j :: IsRecord(s, m, j) ==> t.owned[m][j] == s.owned[m][j])
  }

  /** Equal for ownership: same support and the same slots active from index 1 upward. */
  ghost predicate SameContributionSlots(r: EntryRecord, r': EntryRecord) {
    && |r'.value| == |r.value|
    && (Supported(r') <==> Supported(r))
    && (forall i :: 1 <= i < |r.value| ==> r'.active[i] == r.active[i])
  }

  lemma SameRecords(s: Store, t: Store)
    requires Sound(s) && EntriesSound(t) && SameRecordLists(s, t) && (forall k :: k in t.entries <==> k in s.entries)
    requires forall key :: key in s.entries ==> SameContributionSlots(s.entries[key], t.entries[key])
    ensures Sound(t)
  {
    hide WellStamped, InSync, Supported;
    forall m, j | IsRecord(t, m, j)
      ensures ValidRecord(t, m, t.owned[m][j])
    {
      assert IsRecord(s, m, j) && ValidRecord(s, m, s.owned[m][j]);
    }
    forall key, i | key in t.entries && 1 <= i < |t.entries[key].value| && t.entries[key].active[i]
      ensures HasOwner(t, key, i)
    {
      assert HasOwner(s, key, i);
      var m, j :| IsRecord(s, m, j) && PointsAt(s.owned[m][j], key, i);
      assert IsRecord(t, m, j);
    }
  }

  lemma EmptyListKeeps(s: Store, m: ModifierRef)
    requires Sound(s)
    ensures Sound(Listed(s, m))
  {
    hide WellStamped, InSync, Supported;
    var t := Listed(s, m);
    assert SameRecordLists(s, t);
    SameRecords(s, t);
  }

  lemma SupportedKept(r: EntryRecord, r': EntryRecord)
    requires r'.kind == r.kind && r'.post == r.post
    ensures Supported(r') <==> Supported(r)
  {
    hide Rebuild;
  }

  /** Writing a slot in place keeps the invariant when the slot is 0 or already active. */
  lemma WriteKeeps(s: Store, key: EntryKey, op: BoundaryOperation, slot: nat, v: Raw)
    requires Sound(s) && key in s.entries && Update(s.entries[key], slot, v).Ok?
    requires slot == 0 || s.entries[key].active[slot]
    ensures Sound(Commit(s, key, op, slot, Update(s.entries[key], slot, v).value))
  {
    hide Materialize, Update, WellStamped, InSync, Supported;
    var r := s.entries[key];
    var t := Commit(s, key, op, slot, Update(r, slot, v).value);
    UpdateShape(r, slot, v);
    StepKeeps(r, UpdateOp(slot, v));
    SupportedKept(r, t.entries[key]);
    SameRecords(s, t);
  }

  /** `t` has the records of `s`, one more for `m` at the end of its list, and the slot of that
      record newly active. */
  ghost predicate Gained(s: Store, t: Store, m: ModifierRef, c: Contribution) {
    && m in s.owned && t.owned == s.owned[m := s.owned[m] + [c]] && c.modifier == m
    && c.key in s.entries && (forall k :: k in t.entries <==> k in s.entries) && c.slot >= 1
    && ChangesOnly(s.entries[c.key], t.entries[c.key], c.slot) && t.entries[c.key].active[c.slot]
    && (c.slot < |s.entries[c.key].value| ==> !s.entries[c.key].active[c.slot])
    && Supported(t.entries[c.key]) && Supported(s.entries[c.key])
    && forall key :: key in s.entries && key != c.key ==> t.entries[key] == s.entries[key]
  }

  lemma RecordsGained(s: Store, t: Store, m: ModifierRef, c: Contribution)
    requires Gained(s, t, m, c)
    ensures var n := |s.owned[m]|;
      && (forall m', j :: IsRecord(t, m', j) ==> (m' == m && j == n) || IsRecord(s, m', j))
      && (forall m', j :: IsRecord(s, m', j) ==> IsRecord(t, m', j) && t.owned[m'][j] == s.owned[m'][j])
      && IsRecord(t, m, n) && t.owned[m][n] == c && !IsRecord(s, m, n)
  {
  }

  lemma GainedPoints(s: Store, t: Store, m: ModifierRef, c: Contribution)
    requires Gained(s, t, m, c) && RecordsPoint(s)
    ensures RecordsPoint(t)
    ensures forall m', j :: IsRecord(s, m', j) ==> !PointsAt(s.owned[m'][j], c.key, c.slot)
  {
    hide Supported;
    RecordsGained(s, t, m, c);
    forall m', j | IsRecord(s, m', j)
      ensures ValidRecord(t, m', s.owned[m'][j]) && !PointsAt(s.owned[m'][j], c.key, c.slot)
    {
      assert ValidRecord(s, m', s.owned[m'][j]);
    }
  }

  lemma GainedShares(s: Store, t: Store, m: ModifierRef, c: Contribution)
    requires Gained(s, t, m, c) && RecordsPoint(s) && NoSharing(s)
    ensures NoSharing(t)
  {
    GainedPoints(s, t, m, c);
    RecordsGained(s, t, m, c);
    hide Gained, RecordsPoint, ValidRecord;
  }

  lemma GainedOrphans(s: Store, t: Store, m: ModifierRef, c: Contribution)
    requires Gained(s, t, m, c) && NoOrphans(s)
    ensures NoOrphans(t)
  {
    hide Supported;
    RecordsGained(s, t, m, c);
    forall key, i | key in t.entries && 1 <= i < |t.entries[key].value| && t.entries[key].active[i]
      ensures HasOwner(t, key, i)
    {
      if key == c.key && i == c.slot {
        assert PointsAt(t.owned[m][|s.owned[m]|], key, i);
      } else {
        assert HasOwner(s, key, i);
        var m', j :| IsRecord(s, m', j) && PointsAt(s.owned[m'][j], key, i);
        assert PointsAt(t.owned[m'][j], key, i);
      }
    }
  }

  /** A freshly allocated slot together with its record keeps the invariant. */
  lemma AllocateKeeps(s: Store, m: ModifierRef, key: EntryKey, v: Raw)
    requires Sound(s) && m in s.owned && key in s.entries && Supported(s.entries[key])
    ensures StackSource(s, key, v).Ok?
    ensures var (s', slot) := StackSource(s, key, v).value;
      var t := s'.(owned := s'.owned[m := s.owned[m] + [Contribution(m, key, slot)]]);
      Sound(t) && Gained(s, t, m, Contribution(m, key, slot)) && t.entries[key].value[slot] == v
  {
    hide Allocate, WellStamped, InSync, Supported;
    var r, c := s.entries[key], Contribution(m, key, ChosenSlot(s.entries[key]));
    AllocateShape(r, v);
    StepKeeps(r, AllocateOp(v));
    var r' := Allocate(r, v).value;
    SupportedKept(r, r');
    var t := Commit(s, key, SourceAllocated, c.slot, r').(owned := s.owned[m := s.owned[m] + [c]]);
    assert Gained(s, t, m, c);
    GainedPoints(s, t, m, c);
    GainedShares(s, t, m, c);
    GainedOrphans(s, t, m, c);
  }

  /** The store after disabling the slot of a modifier's first record and dropping that record. */
  function DropFirst(s: Store, m: ModifierRef): Store
    requires m in s.owned && s.owned[m] != [] && RemoveSource(s, s.owned[m][0].key, s.owned[m][0].slot).Ok?
  {
    var s' := RemoveSource(s, s.owned[m][0].key, s.owned[m][0].slot).value;
    s'.(owned := s.owned[m := s.owned[m][1..]])
  }

  /** `t` has the records of `s` but the first of `m`, whose slot is now inactive. */
  ghost predicate Lost(s: Store, t: Store, m: ModifierRef, c: Contribution) {
    && m in s.owned && s.owned[m] != [] && c == s.owned[m][0] && t.owned == s.owned[m := s.owned[m][1..]]
    && c.key in s.entries && (forall k :: k in t.entries <==> k in s.entries)
    && ChangesOnly(s.entries[c.key], t.entries[c.key], c.slot) && !t.entries[c.key].active[c.slot]
    && t.entries[c.key].value == s.entries[c.key].value
    && (Supported(t.entries[c.key]) <==> Supported(s.entries[c.key]))
    && forall key :: key in s.entries && key != c.key ==> t.entries[key] == s.entries[key]
  }

  /** Where a record of `t` stood in `s`. */
  function Before(m: ModifierRef, m': ModifierRef, j: int): int {
    if m' == m then j + 1 else j
  }

  lemma RecordsLost(s: Store, t: Store, m: ModifierRef, c: Contribution)
    requires Lost(s, t, m, c)
    ensures forall m', j :: IsRecord(t, m', j) ==>
      IsRecord(s, m', Before(m, m', j)) && t.owned[m'][j] == s.owned[m'][Before(m, m', j)]
        && (m' != m || Before(m, m', j) != 0)
    ensures forall m', j :: IsRecord(s, m', j) && (m' != m || j != 0) ==>
      var i := if m' == m then j - 1 else j;
      IsRecord(t, m', i) && t.owned[m'][i] == s.owned[m'][j]
    ensures IsRecord(s, m, 0)
  {
  }

  lemma LostPoints(s: Store, t: Store, m: ModifierRef, c: Contribution)
    requires Lost(s, t, m, c) && RecordsPoint(s) && NoSharing(s)
    ensures RecordsPoint(t)
  {
    hide Supported;
    RecordsLost(s, t, m, c);
    forall m', j | IsRecord(t, m', j)
      ensures ValidRecord(t, m', t.owned[m'][j])
    {
      var i := Before(m, m', j);
      assert ValidRecord(s, m', s.owned[m'][i]);
      assert !PointsAt(s.owned[m'][i], s.owned[m][0].key, s.owned[m][0].slot);
    }
  }

  lemma LostShares(s: Store, t: Store, m: ModifierRef, c: Contribution)
    requires Lost(s, t, m, c) && NoSharing(s)
    ensures NoSharing(t)
  {
    hide Lost, PointsAt;
    RecordsLost(s, t, m, c);
    forall m1, i, m2, j | IsRecord(t, m1, i) && IsRecord(t, m2, j) && (m1 != m2 || i != j)
      ensures !PointsAt(t.owned[m1][i], t.owned[m2][j].key, t.owned[m2][j].slot)
    {
      var i', j' := Before(m, m1, i), Before(m, m2, j);
      assert !PointsAt(s.owned[m1][i'], s.owned[m2][j'].key, s.owned[m2][j'].slot);
    }
  }

  lemma LostOrphans(s: Store, t: Store, m: ModifierRef, c: Contribution)
    requires Lost(s, t, m, c) && NoOrphans(s)
    ensures NoOrphans(t)
  {
    hide Supported;
    RecordsLost(s, t, m, c);
    forall key, i | key in t.entries && 1 <= i < |t.entries[key].value| && t.entries[key].active[i]
      ensures HasOwner(t, key, i)
    {
      assert HasOwner(s, key, i);
      var m', j :| IsRecord(s, m', j) && PointsAt(s.owned[m'][j], key, i);
      assert m' != m || j != 0;
      var j' := if m' == m then j - 1 else j;
      assert IsRecord(t, m', j') && PointsAt(t.owned[m'][j'], key, i);
    }
  }

  /** Dropping a record with its slot always succeeds and keeps the invariant. */
  lemma DropFirstKeeps(s: Store, m: ModifierRef)
    requires Sound(s) && m in s.owned && s.owned[m] != []
    ensures RemoveSource(s, s.owned[m][0].key, s.owned[m][0].slot).Ok?
    ensures Sound(DropFirst(s, m)) && Lost(s, DropFirst(s, m), m, s.owned[m][0])
  {
    hide Remove, WellStamped, InSync, Supported;
    var c := s.owned[m][0];
    assert IsRecord(s, m, 0) && ValidRecord(s, m, c);
    var r := s.entries[c.key];
    RemoveShape(r, c.slot);
    StepKeeps(r, RemoveOp(c.slot));
    var t := DropFirst(s, m);
    SupportedKept(r, t.entries[c.key]);
    LostPoints(s, t, m, c);
    LostShares(s, t, m, c);
    LostOrphans(s, t, m, c);
  }

  // -------------------------------------------------------------------------
  // Whole operations
  // -------------------------------------------------------------------------

  lemma StackKeeps(s: Store, m: ModifierRef, stateRaw: int, key: EntryKey, v: Raw, isRefresh: bool)
    requires Sound(s)
    ensures Sound(StackContribution(s, m, stateRaw, key, v, isRefresh).0)
  {
    hide Sound, Update, Allocate, Supported;
    EmptyListKeeps(s, m);
    var s0 := Listed(s, m);
    var found := FindRecord(s0.owned[m], key);
    if isRefresh && found.Some? {
      RefreshWrites(s0, m, found.value, v);
    } else if key in s.entries {
      AllocateShape(s.entries[key], v);
      if Supported(s.entries[key]) {
        AllocateKeeps(s0, m, key, v);
      }
    }
  }

  /** Writing through a record always succeeds and keeps the invariant. */
  lemma RefreshWrites(s: Store, m: ModifierRef, j: nat, v: Raw)
    requires Sound(s) && IsRecord(s, m, j)
    ensures var c := s.owned[m][j];
      && c.key in s.entries && UpdateSource(s, c.key, c.slot, v).Ok?
      && Update(s.entries[c.key], c.slot, v).Ok?
      && Sound(UpdateSource(s, c.key, c.slot, v).value)
  {
    hide Update, Supported, WellStamped, InSync;
    var c := s.owned[m][j];
    assert ValidRecord(s, m, c);
    UpdateShape(s.entries[c.key], c.slot, v);
    WriteKeeps(s, c.key, SourceUpdated, c.slot, v);
  }

  /** Drop every record of a modifier, one at a time. */
  ghost function DropAll(s: Store, m: ModifierRef): Store
    requires m in s.owned
    decreases |s.owned[m]|
  {
    if s.owned[m] == [] || RemoveSource(s, s.owned[m][0].key, s.owned[m][0].slot).Err? then s
    else DropAll(DropFirst(s, m), m)
  }

  lemma {:induction false} DropAllKeeps(s: Store, m: ModifierRef)
    requires Sound(s) && m in s.owned
    ensures Sound(DropAll(s, m)) && DropAll(s, m).owned == s.owned[m := []]
    decreases |s.owned[m]|
  {
    hide Remove, Sound;
    if s.owned[m] == [] {
      assert s.owned[m := []] == s.owned;
    } else {
      DropFirstKeeps(s, m);
      DropAllKeeps(DropFirst(s, m), m);
    }
  }

  /** Disabling slots does not look at the records. */
  lemma {:induction false} RemoveIgnoresRecords(s: Store, records: seq<Contribution>, o: map<ModifierRef, seq<Contribution>>)
    ensures var r := RemoveRecords(s, records);
      RemoveRecords(s.(owned := o), records) == (r.0.(owned := o), r.1)
    decreases |records|
  {
    hide Remove;
    if records != [] {
      match RemoveSource(s, records[0].key, records[0].slot)
      case Err(_) =>
      case Ok(s') => RemoveIgnoresRecords(s', records[1..], o);
    }
  }

  lemma {:induction false} RemoveIsDropAll(s: Store, m: ModifierRef)
    requires Sound(s) && m in s.owned
    ensures RemoveRecords(s, s.owned[m]) == (DropAll(s, m).(owned := s.owned), None)
    decreases |s.owned[m]|
  {
    hide Remove, Sound;
    if s.owned[m] != [] {
      DropFirstKeeps(s, m);
      var t := DropFirst(s, m);
      var c := s.owned[m][0];
      var s' := RemoveSource(s, c.key, c.slot).value;
      RemoveIsDropAll(t, m);
      RemoveIgnoresRecords(s', s.owned[m][1..], t.owned);
      RemoveIgnoresRecords(t, t.owned[m], s'.owned);
      assert t.(owned := s'.owned) == s';
    }
  }

  /** Forgetting an empty record list. */
  lemma ForgetKeeps(t: Store, m: ModifierRef)
    requires Sound(t) && m in t.owned && t.owned[m] == []
    ensures Sound(t.(owned := t.owned - {m}))
  {
    hide WellStamped, InSync, Supported;
    var u := t.(owned := t.owned - {m});
    assert SameRecordLists(t, u);
    SameRecords(t, u);
  }

  /** A pop never fails on a sound store, and forgets the modifier. */
  lemma PopKeeps(s: Store, m: ModifierRef)
    requires Sound(s)
    ensures PopContributions(s, m).1 == None
    ensures Sound(PopContributions(s, m).0) && PopContributions(s, m).0.owned == s.owned - {m}
    ensures m in s.owned ==> PopContributions(s, m).0 == DropAll(s, m).(owned := s.owned - {m})
  {
    hide Sound, RemoveRecords, DropAll;
    if m in s.owned {
      RemoveIsDropAll(s, m);
      DropAllKeeps(s, m);
      var t := DropAll(s, m);
      ForgetKeeps(t, m);
      assert t.owned - {m} == s.owned - {m};
    } else {
      assert RemoveRecords(s, []) == (s, None) by { NothingToRemove(s); }
      assert s.owned - {m} == s.owned;
    }
  }

  lemma NothingToRemove(s: Store)
    ensures RemoveRecords(s, []) == (s, None)
  {
  }

  lemma ModifyKeeps(s: Store, key: EntryKey, functionId: int, operand: Raw)
    requires Sound(s)
    ensures Sound(Apply(s, Modify(key, functionId, operand)))
  {
    hide Sound, Update;
    if key in s.entries {
      var v := ApplyModifyFunction(functionId, s.entries[key].materialized, operand);
      if Update(s.entries[key], 0, v).Ok? {
        WriteKeeps(s, key, AfterPropertyChanged, 0, v);
      }
    }
  }

  // -------------------------------------------------------------------------
  // Whole runs
  // -------------------------------------------------------------------------

  lemma ApplyKeeps(s: Store, step: Step)
    requires Sound(s)
    ensures Sound(Apply(s, step))
  {
    hide Sound, StackContribution, PopContributions;
    match step
    case Stack(m, stateRaw, key, v, isRefresh) => StackKeeps(s, m, stateRaw, key, v, isRefresh);
    case Pop(m) => PopKeeps(s, m);
    case Modify(key, functionId, operand) => ModifyKeeps(s, key, functionId, operand);
  }

  /** On every reachable store each record points at an active slot of index at least 1, no slot
      has two records, every active contribution slot has one, and each entry is in step. */
  lemma {:induction false} RunIsSound(s: Store, steps: seq<Step>)
    requires Sound(s)
    ensures Sound(Run(s, steps))
    decreases |steps|
  {
    hide Sound, Apply;
    if steps != [] {
      ApplyKeeps(s, steps[0]);
      RunIsSound(Apply(s, steps[0]), steps[1..]);
    }
  }

  /** Before anything is stacked, a store whose entries hold no active contributions is sound. */
  lemma FreshStoreIsSound(s: Store)
    requires s.owned == map[] && EntriesSound(s)
    requires forall key, i :: key in s.entries && 1 <= i < |s.entries[key].value| ==> !s.entries[key].active[i]
    ensures Sound(s)
  {
  }

  // -------------------------------------------------------------------------
  // What a pop disables
  // -------------------------------------------------------------------------

  ghost predicate Recorded(s: Store, m: ModifierRef, key: EntryKey, i: int) {
    exists j :: IsRecord(s, m, j) && PointsAt(s.owned[m][j], key, i)
  }

  /** Slots are neither moved nor rewritten, and those that `m` records are off in `t`. */
  ghost predicate SwitchedOff(s: Store, t: Store, m: ModifierRef) {
    && (forall key :: key in t.entries <==> key in s.entries)
    && (forall key :: key in s.entries ==> t.entries[key].value == s.entries[key].value)
    && (forall key, i :: key in s.entries && 0 <= i < |s.entries[key].value| ==>
         (t.entries[key].active[i] <==> s.entries[key].active[i] && !Recorded(s, m, key, i)))
  }

  lemma {:induction false} DropAllSwitchesOff(s: Store, m: ModifierRef)
    requires Sound(s) && m in s.owned
    ensures SwitchedOff(s, DropAll(s, m), m)
    decreases |s.owned[m]|
  {
    hide Sound, Supported, SwitchedOff, DropFirst, RemoveSource, Recorded, Lost;
    if s.owned[m] == [] {
      NothingSwitched(s, m);
    } else {
      DropFirstKeeps(s, m);
      var t := DropFirst(s, m);
      LostShortens(s, t, m, s.owned[m][0]);
      DropAllSwitchesOff(t, m);
      SwitchedFirst(s, t, DropAll(t, m), m, s.owned[m][0]);
    }
  }

  lemma LostShortens(s: Store, t: Store, m: ModifierRef, c: Contribution)
    requires Lost(s, t, m, c)
    ensures m in t.owned && |t.owned[m]| < |s.owned[m]|
  {
  }

  lemma NothingSwitched(s: Store, m: ModifierRef)
    requires m in s.owned && s.owned[m] == []
    ensures SwitchedOff(s, s, m)
  {
    assert forall key, i :: !Recorded(s, m, key, i);
  }

  /** Switching off the first record's slot and then those of the others. */
  lemma SwitchedFirst(s: Store, t: Store, u: Store, m: ModifierRef, c: Contribution)
    requires Lost(s, t, m, c) && SwitchedOff(t, u, m)
    ensures SwitchedOff(s, u, m)
  {
    hide Recorded, Lost;
    DropRecorded(s, t, m, c);
    LostSlots(s, t, m, c);
    forall key, i | key in s.entries && 0 <= i < |s.entries[key].value|
      ensures u.entries[key].active[i] <==> s.entries[key].active[i] && !Recorded(s, m, key, i)
    {
      assert |t.entries[key].value| == |s.entries[key].value|;
    }
  }

  lemma LostSlots(s: Store, t: Store, m: ModifierRef, c: Contribution)
    requires Lost(s, t, m, c)
    ensures forall key :: key in t.entries <==> key in s.entries
    ensures forall key :: key in s.entries ==> t.entries[key].value == s.entries[key].value
    ensures forall key, i :: key in s.entries && 0 <= i < |s.entries[key].value| ==>
      (t.entries[key].active[i] <==> s.entries[key].active[i] && !(key == c.key && i == c.slot))
  {
    hide Supported;
  }

  lemma DropRecorded(s: Store, t: Store, m: ModifierRef, c: Contribution)
    requires Lost(s, t, m, c)
    ensures forall key, i :: Recorded(s, m, key, i) <==> Recorded(t, m, key, i) || (key == c.key && i == c.slot)
  {
    hide Supported;
    RecordsLost(s, t, m, c);
    assert PointsAt(s.owned[m][0], c.key, c.slot);
    hide Lost;
    forall key, i
      ensures Recorded(s, m, key, i) <==> Recorded(t, m, key, i) || (key == c.key && i == c.slot)
    {
      if Recorded(s, m, key, i) && !(key == c.key && i == c.slot) {
        var j :| IsRecord(s, m, j) && PointsAt(s.owned[m][j], key, i);
        assert PointsAt(t.owned[m][j - 1], key, i);
      }
      if Recorded(t, m, key, i) {
        var j :| IsRecord(t, m, j) && PointsAt(t.owned[m][j], key, i);
        assert PointsAt(s.owned[m][Before(m, m, j)], key, i);
      }
    }
  }

  /** A pop disables exactly the slots the modifier recorded. */
  lemma PopDisablesExactlyItsSlots(s: Store, m: ModifierRef)
    requires Sound(s)
    ensures SwitchedOff(s, PopContributions(s, m).0, m)
  {
    hide Sound, PopContributions;
    PopKeeps(s, m);
    if m in s.owned {
      DropAllSwitchesOff(s, m);
    } else {
      assert forall key, i :: !Recorded(s, m, key, i);
      assert PopContributions(s, m).0 == s by { PopNothing(s, m); }
    }
  }

  lemma PopNothing(s: Store, m: ModifierRef)
    requires m !in s.owned
    ensures PopContributions(s, m) == (s, None)
  {
    assert s.owned - {m} == s.owned;
  }
}

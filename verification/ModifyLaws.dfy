/** What source-0 modifications and stacks do and return, in terms of the numbers involved. */
module ModifyLaws {
  import opened Wrappers
  import opened FixPoint
  import opened FixPointLaws
  import opened PropertyEntries
  import opened BattleStates
  import opened PropertyRuntime
  import opened SlotLaws
  import opened Ownership

  /** A source-0 modification succeeds exactly for an entry with a slot 0, without post stages, of a
      supported kind, whose property is not one of the even ids from 10 to 32. */
  lemma ModifySucceedsIff(s: Store, key: EntryKey, functionId: int, operand: Raw)
    ensures ModifySourceZero(s, key, functionId, operand).Ok? <==>
      && !(10 <= key.property <= 32 && key.property % 2 == 0) && key in s.entries
      && var r := s.entries[key];
      r.value != [] && r.post.AllNull() && r.kind in {1, 2, 3, 4, 6, 7}
  {
    hide Update, ApplyModifyFunction;
    if key in s.entries {
      UpdateShape(s.entries[key], 0, ApplyModifyFunction(functionId, s.entries[key].materialized, operand));
    }
  }

  /** Why a source-0 modification is refused. */
  lemma ModifyRefusals(s: Store, key: EntryKey, functionId: int, operand: Raw)
    ensures match ModifySourceZero(s, key, functionId, operand)
      case Ok(_) => true
      case Err(e) =>
        if 10 <= key.property <= 32 && key.property % 2 == 0 then e == UnsupportedSpecialProperty
        else if key !in s.entries then e == EntryNotFound
        else if s.entries[key].post.hookContext then e == UnsupportedPostStage
        else e == WriteRefusal(s.entries[key], 0)
  {
    hide Update, ApplyModifyFunction, WriteRefusal;
    if key in s.entries {
      SlotRefusals(s.entries[key], 0, ApplyModifyFunction(functionId, s.entries[key].materialized, operand));
    }
  }

  /** What an entry that reads its slot 0 reads after each of the modify functions: 2 adds, 3
      multiplies, 4 keeps the lesser and 5 the greater of the two, and any other id sets. */
  lemma ModifyMeaning(s: Store, key: EntryKey, functionId: int, operand: Raw)
    requires key in s.entries && TracksSlotZero(s.entries[key]) && key.property !in SPECIAL_PROPERTIES
    ensures ModifySourceZero(s, key, functionId, operand).Ok?
    ensures var t := ModifySourceZero(s, key, functionId, operand).value;
      var before := s.entries[key].materialized;
      && key in t.entries && TracksSlotZero(t.entries[key])
      && var after := t.entries[key].materialized;
      && (functionId == 2 && OnGrid(before) && OnGrid(operand) && Fits(Decode(before) + Decode(operand)) ==>
           Denote(after) == Denote(before) + Denote(operand))
      && (functionId == 3 && OnGrid(before) && OnGrid(operand) && Fits(Decode(before) * Decode(operand) / UNIT) ==>
           0 <= Denote(before) * Denote(operand) - Denote(after) * 0x2_0000_0000 < 2 * 128 * 0x2_0000_0000)
      && (functionId == 4 ==> after in {before, operand} && Denote(after) <= Denote(before) && Denote(after) <= Denote(operand))
      && (functionId == 5 ==> after in {before, operand} && Denote(after) >= Denote(before) && Denote(after) >= Denote(operand))
      && (functionId !in {2, 3, 4, 5} ==> after == operand)
      && (forall k :: k in s.entries && k != key ==> k in t.entries && t.entries[k] == s.entries[k])
  {
    hide Update, TracksSlotZero, Denote, Decode, OnGrid, Add, Multiply, Compare;
    var before := s.entries[key].materialized;
    SlotZeroTracks(s.entries[key], ApplyModifyFunction(functionId, before, operand));
    if OnGrid(before) && OnGrid(operand) {
      GridExact(before, operand);
      if Fits(Decode(before) * Decode(operand) / UNIT) {
        MultiplyError(before, operand);
      }
    }
  }

  // -------------------------------------------------------------------------
  // Stacks
  // -------------------------------------------------------------------------

  /** The record of modifier `m` in list position `j` is one for the entry. */
  ghost predicate HasRecordFor(s: Store, m: ModifierRef, key: EntryKey) {
    exists j :: IsRecord(s, m, j) && s.owned[m][j].key == key
  }

  /** A stack by a dying modifier does nothing.  A living one's succeeds exactly where the entry can be
      rebuilt; then the returned slot is recorded for the modifier, active, and holds the value, and
      the one log record says whether it was a new slot or a refreshed one. */
  lemma StackReturns(s: Store, m: ModifierRef, stateRaw: int, key: EntryKey, v: Raw, isRefresh: bool)
    requires Sound(s)
    ensures stateRaw > 1 ==> StackContribution(s, m, stateRaw, key, v, isRefresh) == (s, Ok(None))
    ensures stateRaw <= 1 ==>
      var (t, r) := StackContribution(s, m, stateRaw, key, v, isRefresh);
      && (r.Ok? <==> key in s.entries && Supported(s.entries[key]))
      && (r.Err? ==> t.entries == s.entries && t.log == s.log)
      && (r.Ok? ==>
           && r.value.Some? && key in t.entries
           && var slot, entry := r.value.value, t.entries[key];
           && Recorded(t, m, key, slot) && slot < |entry.value| && entry.value[slot] == v && entry.active[slot]
           && t.log == s.log + [Boundary(if isRefresh && HasRecordFor(s, m, key) then SourceUpdated else SourceAllocated,
                                         key, slot, s.entries[key].materialized, entry.materialized)])
  {
    hide Sound, Update, Allocate, Supported, Recorded, HasRecordFor;
    if stateRaw <= 1 {
      EmptyListKeeps(s, m);
      var s0 := Listed(s, m);
      var found := FindRecord(s0.owned[m], key);
      RecordForIff(s, m, key);
      if isRefresh && found.Some? {
        RefreshReturns(s0, m, found.value, v);
      } else if key in s.entries {
        AllocateShape(s.entries[key], v);
        if Supported(s.entries[key]) {
          AllocateKeeps(s0, m, key, v);
          AllocationRecorded(s0, m, key, v);
        }
      }
    }
  }

  lemma {:induction false} FirstRecordFound(records: seq<Contribution>, key: EntryKey, j: nat)
    requires j < |records| && records[j].key == key && forall k :: 0 <= k < j ==> records[k].key != key
    ensures FindRecord(records, key) == Some(j)
    decreases j
  {
    if j > 0 {
      FirstRecordFound(records[1..], key, j - 1);
    }
  }

  /** A refresh updates the slot of the modifier's first record for the entry, and no other. */
  lemma RefreshUpdatesFirst(s: Store, m: ModifierRef, stateRaw: int, key: EntryKey, v: Raw, j: nat)
    requires stateRaw <= 1 && IsRecord(s, m, j) && s.owned[m][j].key == key
    requires forall k :: 0 <= k < j ==> s.owned[m][k].key != key
    ensures StackContribution(s, m, stateRaw, key, v, true) ==
      match UpdateSource(s, key, s.owned[m][j].slot, v)
      case Ok(t) => (t, Ok(Some(s.owned[m][j].slot)))
      case Err(e) => (s, Err(e))
  {
    hide UpdateSource, StackSource;
    FirstRecordFound(s.owned[m], key, j);
    assert s.owned[m := s.owned[m]] == s.owned;
  }

  /** A living modifier's stack leaves it a list of records: the one it had, or none, and one more at
      the end for a slot that was not refreshed.  Nobody else's list changes. */
  lemma StackRecords(s: Store, m: ModifierRef, stateRaw: int, key: EntryKey, v: Raw, isRefresh: bool)
    requires stateRaw <= 1
    ensures
      var (t, r) := StackContribution(s, m, stateRaw, key, v, isRefresh);
      var records := if m in s.owned then s.owned[m] else [];
      && (r.Ok? ==> r.value.Some?)
      && t.owned == s.owned[m := if r.Ok? && !(isRefresh && HasRecordFor(s, m, key))
                                 then records + [Contribution(m, key, r.value.value)] else records]
  {
    hide Update, Allocate, HasRecordFor;
    RecordForIff(s, m, key);
  }

  lemma RecordForIff(s: Store, m: ModifierRef, key: EntryKey)
    ensures FindRecord(RecordsOf(s, m), key).Some? <==> HasRecordFor(s, m, key)
  {
    var records := RecordsOf(s, m);
    var found := FindRecord(records, key);
    if found.Some? {
      assert IsRecord(s, m, found.value);
    }
    if j :| IsRecord(s, m, j) && s.owned[m][j].key == key {
      assert records[j] in records;
    }
  }

  lemma RefreshReturns(s: Store, m: ModifierRef, j: nat, v: Raw)
    requires Sound(s) && IsRecord(s, m, j)
    ensures var c := s.owned[m][j];
      && c.key in s.entries && Supported(s.entries[c.key]) && UpdateSource(s, c.key, c.slot, v).Ok?
      && var t := UpdateSource(s, c.key, c.slot, v).value;
      && c.key in t.entries && Recorded(t, m, c.key, c.slot)
      && var entry := t.entries[c.key];
      && c.slot < |entry.value| && entry.value[c.slot] == v && entry.active[c.slot]
  {
    hide Update, Supported, WellStamped, InSync, NoSharing, NoOrphans;
    var c := s.owned[m][j];
    assert ValidRecord(s, m, c);
    UpdateShape(s.entries[c.key], c.slot, v);
    assert IsRecord(UpdateSource(s, c.key, c.slot, v).value, m, j) && PointsAt(c, c.key, c.slot);
  }

  lemma AllocationRecorded(s: Store, m: ModifierRef, key: EntryKey, v: Raw)
    requires m in s.owned && key in s.entries && Allocate(s.entries[key], v).Ok?
    ensures var (s', slot) := StackSource(s, key, v).value;
      var t := s'.(owned := s'.owned[m := s.owned[m] + [Contribution(m, key, slot)]]);
      && key in t.entries && Recorded(t, m, key, slot)
      && slot < |t.entries[key].value| && t.entries[key].value[slot] == v && t.entries[key].active[slot]
  {
    hide Allocate;
    AllocateShape(s.entries[key], v);
    var (s', slot) := StackSource(s, key, v).value;
    var t := s'.(owned := s'.owned[m := s.owned[m] + [Contribution(m, key, slot)]]);
    assert IsRecord(t, m, |s.owned[m]|) && PointsAt(t.owned[m][|s.owned[m]|], key, slot);
  }

  // -------------------------------------------------------------------------
  // What the log says of the other operations
  // -------------------------------------------------------------------------

  /** A source-0 modification logs one change of slot 0; a removal one removed slot, now inactive. */
  lemma ChangesAreTagged(s: Store, key: EntryKey, slot: nat, v: Raw, functionId: int)
    requires key in s.entries && WellStamped(s.entries[key])
    ensures match ModifySourceZero(s, key, functionId, v)
      case Ok(t) => key in t.entries && t.entries[key].active != [] && t.entries[key].active[0]
        && t.log == s.log + [Boundary(AfterPropertyChanged, key, 0, s.entries[key].materialized, t.entries[key].materialized)]
      case Err(_) => true
    ensures match RemoveSource(s, key, slot)
      case Ok(t) => key in t.entries && slot < |t.entries[key].active| && !t.entries[key].active[slot]
        && t.log == s.log + [Boundary(SourceRemoved, key, slot, s.entries[key].materialized, t.entries[key].materialized)]
      case Err(_) => true
    ensures match UpdateSource(s, key, slot, v)
      case Ok(t) => key in t.entries && slot < |t.entries[key].active| && t.entries[key].active[slot]
        && t.log == s.log + [Boundary(SourceUpdated, key, slot, s.entries[key].materialized, t.entries[key].materialized)]
      case Err(_) => true
    ensures match StackSource(s, key, v)
      case Ok((t, slot)) => key in t.entries && 1 <= slot < |t.entries[key].active| && t.entries[key].active[slot]
        && t.log == s.log + [Boundary(SourceAllocated, key, slot, s.entries[key].materialized, t.entries[key].materialized)]
      case Err(_) => true
  {
    hide Update, Allocate, Remove, ApplyModifyFunction, WellStamped, Supported;
    var r := s.entries[key];
    UpdateShape(r, 0, ApplyModifyFunction(functionId, r.materialized, v));
    UpdateShape(r, slot, v);
    RemoveShape(r, slot);
    AllocateShape(r, v);
  }

  /** A pop changes the records of its own modifier only: it forgets them, or on a failure keeps them. */
  lemma PopForgets(s: Store, m: ModifierRef)
    ensures
      var (t, failure) := PopContributions(s, m);
      && (failure == None ==> t.owned == s.owned - {m})
      && (failure != None ==> t.owned == s.owned)
  {
    RemovalsKeepRecords(s, RecordsOf(s, m));
  }

  lemma {:induction false} RemovalsKeepRecords(s: Store, records: seq<Contribution>)
    ensures RemoveRecords(s, records).0.owned == s.owned
    decreases |records|
  {
    hide Remove;
    if records != [] && RemoveSource(s, records[0].key, records[0].slot).Ok? {
      RemovalsKeepRecords(RemoveSource(s, records[0].key, records[0].slot).value, records[1..]);
    }
  }

  predicate IsRemovalOf(b: Boundary, c: Contribution) {
    b.operation == SourceRemoved && b.key == c.key && b.slot == c.slot
  }

  /** A pop logs the removal of each recorded slot, in the order of the records. */
  lemma {:induction false} PopIsTagged(s: Store, records: seq<Contribution>)
    requires RemoveRecords(s, records).1 == None
    ensures var t := RemoveRecords(s, records).0;
      && |t.log| == |s.log| + |records| && t.log[..|s.log|] == s.log
      && forall j :: 0 <= j < |records| ==> IsRemovalOf(t.log[|s.log| + j], records[j])
    decreases |records|
  {
    hide Remove;
    if records != [] {
      var s' := RemoveSource(s, records[0].key, records[0].slot).value;
      PopIsTagged(s', records[1..]);
      var t := RemoveRecords(s, records).0;
      assert |s'.log| == |s.log| + 1 && s'.log[..|s.log|] == s.log;
      assert t.log[..|s.log|] == t.log[..|s'.log|][..|s.log|];
      forall j | 0 <= j < |records|
        ensures IsRemovalOf(t.log[|s.log| + j], records[j])
      {
        if j == 0 {
          assert t.log[|s.log|] == t.log[..|s'.log|][|s.log|];
        } else {
          assert IsRemovalOf(t.log[|s'.log| + (j - 1)], records[1..][j - 1]);
        }
      }
    }
  }
}

/** The boundary log tells the history of every materialized value without gaps. */
module BoundaryLaws {
  import opened Wrappers
  import opened FixPoint
  import opened PropertyEntries
  import opened BattleStates
  import opened PropertyRuntime
  import opened Ownership
  import opened SlotLaws
  import opened HpRuntime
  import opened FoldLaws
  import opened HpLaws

  /** Everything that writes entries and logs: modifier steps and source-0 modifications, direct
      component calls that bypass the ownership records, hits, and HP set downward. */
  datatype LogStep =
    | Owned(step: Step)
    | ComponentStack(key: EntryKey, v: Raw)
    | ComponentUpdate(key: EntryKey, slot: nat, v: Raw)
    | ComponentRemove(key: EntryKey, slot: nat)
    | Damage(records: seq<LockHpRecord>, component: EntityId, delta: Raw, damageKind: int, mode: int, gate: bool)
    | SetDown(records: seq<LockHpRecord>, component: EntityId, modifyValue: Raw, modifyRatio: Raw, damageKind: int, gate: bool)

  /** A refused component call changes nothing; a refused hit may have written CurrentHP. */
  function LogApply(s: Store, step: LogStep): Store {
    match step
    case Owned(st) => Apply(s, st)
    case ComponentStack(key, v) => (match StackSource(s, key, v) case Ok((t, _)) => t case Err(_) => s)
    case ComponentUpdate(key, slot, v) => (match UpdateSource(s, key, slot, v) case Ok(t) => t case Err(_) => s)
    case ComponentRemove(key, slot) => (match RemoveSource(s, key, slot) case Ok(t) => t case Err(_) => s)
    case Damage(records, component, delta, damageKind, mode, gate) =>
      Transition(s, records, component, delta, damageKind, mode, gate).0
    case SetDown(records, component, modifyValue, modifyRatio, damageKind, gate) =>
      ChangeNegative(s, records, component, modifyValue, modifyRatio, damageKind, gate).0
  }

  function LogRun(s: Store, steps: seq<LogStep>): Store
    decreases |steps|
  {
    if steps == [] then s else LogRun(LogApply(s, steps[0]), steps[1..])
  }

  /** The records of one entry lead from `first` to `last`, each starting where the one before it
      ended. */
  ghost predicate Chains(log: seq<Boundary>, key: EntryKey, first: Raw, last: Raw) {
    if log == [] then first == last
    else
      var n := |log| - 1;
      if log[n].key != key then Chains(log[..n], key, first, last)
      else log[n].after == last && Chains(log[..n], key, first, log[n].before)
  }

  ghost predicate Told(s: Store, key: EntryKey, first: Raw) {
    key in s.entries && Chains(s.log, key, first, s.entries[key].materialized)
  }

  lemma CommitTells(s: Store, k: EntryKey, op: BoundaryOperation, slot: nat, r: EntryRecord, key: EntryKey, first: Raw)
    requires k in s.entries
    ensures Told(Commit(s, k, op, slot, r), key, first) <==> Told(s, key, first)
  {
    var t := Commit(s, k, op, slot, r);
    assert t.log[..|t.log| - 1] == s.log;
  }

  lemma {:induction false} RemoveTells(s: Store, records: seq<Contribution>, key: EntryKey, first: Raw)
    ensures Told(RemoveRecords(s, records).0, key, first) <==> Told(s, key, first)
    decreases |records|
  {
    hide Told, Remove;
    if records != [] && RemoveSource(s, records[0].key, records[0].slot).Ok? {
      var c := records[0];
      CommitTells(s, c.key, SourceRemoved, c.slot, Remove(s.entries[c.key], c.slot).value, key, first);
      RemoveTells(RemoveSource(s, c.key, c.slot).value, records[1..], key, first);
    }
  }

  lemma ListsAreNotTold(s: Store, o: map<ModifierRef, seq<Contribution>>, key: EntryKey, first: Raw)
    ensures Told(s.(owned := o), key, first) <==> Told(s, key, first)
  {
  }

  lemma StackTells(s: Store, m: ModifierRef, key': EntryKey, v: Raw, isRefresh: bool, key: EntryKey, first: Raw)
    requires m in s.owned
    ensures Told(StackListed(s, m, key', v, isRefresh).0, key, first) <==> Told(s, key, first)
  {
    hide Told, Update, Allocate;
    var found := FindRecord(s.owned[m], key');
    if isRefresh && found.Some? {
      var slot := s.owned[m][found.value].slot;
      if key' in s.entries && Update(s.entries[key'], slot, v).Ok? {
        CommitTells(s, key', SourceUpdated, slot, Update(s.entries[key'], slot, v).value, key, first);
      }
    } else if key' in s.entries && Allocate(s.entries[key'], v).Ok? {
      var slot := ChosenSlot(s.entries[key']);
      var s1 := Commit(s, key', SourceAllocated, slot, Allocate(s.entries[key'], v).value);
      CommitTells(s, key', SourceAllocated, slot, Allocate(s.entries[key'], v).value, key, first);
      ListsAreNotTold(s1, s1.owned[m := s.owned[m] + [Contribution(m, key', slot)]], key, first);
    }
  }

  lemma ApplyTells(s: Store, step: Step, key: EntryKey, first: Raw)
    ensures Told(Apply(s, step), key, first) <==> Told(s, key, first)
  {
    hide Told, Update, StackListed;
    match step
    case Stack(m, stateRaw, key', v, isRefresh) =>
      ListsAreNotTold(s, s.owned[m := RecordsOf(s, m)], key, first);
      StackTells(Listed(s, m), m, key', v, isRefresh, key, first);
    case Pop(m) =>
      RemoveTells(s, RecordsOf(s, m), key, first);
      var s' := RemoveRecords(s, RecordsOf(s, m)).0;
      ListsAreNotTold(s', s'.owned - {m}, key, first);
    case Modify(key', functionId, operand) =>
      if key' in s.entries {
        var v := ApplyModifyFunction(functionId, s.entries[key'].materialized, operand);
        if Update(s.entries[key'], 0, v).Ok? {
          CommitTells(s, key', AfterPropertyChanged, 0, Update(s.entries[key'], 0, v).value, key, first);
        }
      }
  }

  // -------------------------------------------------------------------------
  // HP writes
  // -------------------------------------------------------------------------

  /** A slot-0 write that reports `shown` keeps the history whole exactly when the entry then reads
      what was reported. */
  lemma WriteTells(s: Store, component: EntityId, property: int, v: Raw, shown: Option<Raw>, key: EntryKey, first: Raw)
    requires WriteProperty(s, component, property, v, shown).Ok?
    ensures var t, k := WriteProperty(s, component, property, v, shown).value, KeyOf(component, property);
      && k in t.entries
      && (Told(t, key, first) <==> Told(s, key, first) && (key == k ==> t.entries[k].materialized == shown.GetOr(t.entries[k].materialized)))
  {
    hide Update;
    var t := WriteProperty(s, component, property, v, shown).value;
    assert t.log[..|t.log| - 1] == s.log;
  }

  // A spill reports the total it writes.  Whether the entry then reads that total can be told from
  // the entry before the hit.

  /** The values of the active slots from index 1 upward, in slot order. */
  function OtherValues(r: EntryRecord): seq<Raw> {
    if r.value == [] then [] else ActiveValues(r.active[1..], r.value[1..])
  }

  /** Writing `v` into slot 0 makes the entry read `v`: always for the selecting kinds, for the
      extrema when no other active slot beats it, and for the folds when folding the others onto it
      gives it back. */
  ghost predicate ReadsBack(r: EntryRecord, v: Raw) {
    match r.kind
    case 3 => FoldAdd(r.base, [v] + OtherValues(r)) == v
    case 4 => FoldMultiply(r.base, [v] + OtherValues(r)) == v
    case 6 => forall j :: 1 <= j < |r.value| && r.active[j] ==> !Less(r.value[j], v)
    case 7 => forall j :: 1 <= j < |r.value| && r.active[j] ==> !Greater(r.value[j], v)
    case _ => true
  }

  lemma {:induction false} ShiftedPrefix(active: seq<bool>, value: seq<Raw>, n: nat)
    requires 1 <= n <= |active| == |value|
    ensures ActivePrefix(active, value, n) == SlotValues(active[0], value[0]) + ActivePrefix(active[1..], value[1..], n - 1)
  {
    if n == 1 {
      assert ActivePrefix(active, value, 1) == ActivePrefix(active, value, 0) + SlotValues(active[0], value[0]);
    } else {
      ShiftedPrefix(active, value, n - 1);
      assert active[1..][n - 2] == active[n - 1] && value[1..][n - 2] == value[n - 1];
    }
  }

  /** After a slot-0 write the active values are the written one and then the others. */
  lemma WrittenFirst(r: EntryRecord, v: Raw)
    requires r.value != []
    ensures var w := WriteSlot(r, 0, v);
      ActiveValues(w.active, w.value) == [v] + OtherValues(r)
  {
    var w := WriteSlot(r, 0, v);
    ShiftedPrefix(w.active, w.value, |w.value|);
    assert w.active[1..] == r.active[1..] && w.value[1..] == r.value[1..];
  }

  lemma {:induction false} PrefixMembers(active: seq<bool>, value: seq<Raw>, n: nat)
    requires n <= |active| == |value|
    ensures forall x :: x in ActivePrefix(active, value, n) <==> exists j :: 0 <= j < n && active[j] && value[j] == x
  {
    if n > 0 {
      PrefixMembers(active, value, n - 1);
    }
  }

  lemma OtherMembers(r: EntryRecord, x: Raw)
    requires r.value != []
    ensures x in OtherValues(r) <==> exists j :: 1 <= j < |r.value| && r.active[j] && r.value[j] == x
  {
    PrefixMembers(r.active[1..], r.value[1..], |r.value| - 1);
    if x in OtherValues(r) {
      var j :| 0 <= j < |r.value| - 1 && r.active[1..][j] && r.value[1..][j] == x;
      assert r.active[j + 1] && r.value[j + 1] == x;
    }
    if j :| 1 <= j < |r.value| && r.active[j] && r.value[j] == x {
      assert r.active[1..][j - 1] && r.value[1..][j - 1] == x;
    }
  }

  /** The first least value is the head exactly when nothing behind it is less. */
  lemma HeadIsFirstMin(v: Raw, others: seq<Raw>)
    ensures FirstMin([v] + others) == v <==> forall x :: x in others ==> !Less(x, v)
    ensures FirstMax([v] + others) == v <==> forall x :: x in others ==> !Greater(x, v)
  {
    hide Denote, Compare, FirstMin, FirstMax;
    var s := [v] + others;
    FirstLeastFacts(s, FirstMin(s));
    FirstGreatestFacts(s, FirstMax(s));
    assert s[0] == v && forall j :: 1 <= j < |s| ==> s[j] == others[j - 1];
    assert forall x :: x in others ==> x in s;
  }

  lemma WriteReadsBackIff(r: EntryRecord, v: Raw)
    requires Update(r, 0, v).Ok?
    ensures Update(r, 0, v).value.materialized == v <==> ReadsBack(r, v)
  {
    hide FoldAdd, FoldMultiply, FirstMin, FirstMax, CountActive, ActiveValues, Less, Greater, OtherValues;
    UpdateShape(r, 0, v);
    WrittenFirst(r, v);
    HeadIsFirstMin(v, OtherValues(r));
    forall x
      ensures x in OtherValues(r) <==> exists j :: 1 <= j < |r.value| && r.active[j] && r.value[j] == x
    {
      OtherMembers(r, x);
    }
  }

  /** A hit from `current` and `maxHp` either does not spill into `key`, or writes there a total that
      the entry will read back.  Everything here can be looked up before the hit. */
  ghost predicate HitReports(s: Store, component: EntityId, current: Raw, maxHp: Raw, lock: LockHpResult, delta: Raw,
                             gate: bool, key: EntryKey) {
    Spills(current, maxHp, lock, delta, gate) && key == KeyOf(component, NEGATIVE_HP)
    && Writable(s, KeyOf(component, CURRENT_HP)) && Writable(s, key)
    ==> ReadsBack(s.entries[key], Add(s.entries[key].materialized, Overflow(current, maxHp, lock, delta)))
  }

  lemma SpillTells(s: Store, component: EntityId, overflow: Raw, delta: Raw, result: HpResult, key: EntryKey, first: Raw)
    ensures Told(Spill(s, component, overflow, delta, result).0, key, first) <==>
      && Told(s, key, first)
      && (key == KeyOf(component, NEGATIVE_HP) && Writable(s, key) ==>
           ReadsBack(s.entries[key], Add(s.entries[key].materialized, overflow)))
  {
    hide Told, WriteProperty, Writable, ReadsBack, Update, Add, Subtract;
    var k := KeyOf(component, NEGATIVE_HP);
    if k in s.entries {
      var total := Add(s.entries[k].materialized, overflow);
      WriteSucceedsIff(s, component, NEGATIVE_HP, total, Some(total));
      if Writable(s, k) {
        WriteTells(s, component, NEGATIVE_HP, total, Some(total), key, first);
        WriteReadsBackIff(s.entries[k], total);
      }
    } else {
      NotWritable(s, k);
    }
  }

  lemma NotWritable(s: Store, key: EntryKey)
    ensures key !in s.entries ==> !Writable(s, key)
  {
  }

  /** The parts of a hit: CurrentHP is written, and then the overflow may be spilled. */
  lemma HitTells(s: Store, component: EntityId, current: Raw, maxHp: Raw, lock: LockHpResult, delta: Raw, gate: bool,
                 key: EntryKey, first: Raw)
    ensures Told(Hit(s, component, current, maxHp, lock, delta, gate).0, key, first) <==>
      Told(s, key, first) && HitReports(s, component, current, maxHp, lock, delta, gate, key)
  {
    hide Told, WriteProperty, Writable, ReadsBack, Update, Spill, Overflow, Triggers, IsPositive, Subtract, Compare, Add, NextHp;
    var next := NextHp(s, component, current, maxHp, lock, delta);
    TriggeredIsNext(s, component, current, maxHp, lock, delta);
    if next.Ok? {
      WriteSucceedsIff(s, component, CURRENT_HP, next.value, None);
      if WriteProperty(s, component, CURRENT_HP, next.value, None).Ok? {
        var s1 := WriteProperty(s, component, CURRENT_HP, next.value, None).value;
        WriteTells(s, component, CURRENT_HP, next.value, None, key, first);
        var negative := KeyOf(component, NEGATIVE_HP);
        assert negative != KeyOf(component, CURRENT_HP);
        SameWritable(s, s1, negative);
        NotWritable(s, negative);
        var written := s1.entries[KeyOf(component, CURRENT_HP)].materialized;
        var triggered := Triggers(current, maxHp, lock, delta);
        var overflow := Overflow(current, maxHp, lock, delta);
        var result := HpResult(current, written, Subtract(written, current), lock, triggered, overflow, next.value, None, None,
                               LessEqual(next.value, ZERO));
        SpillTells(s1, component, overflow, delta, result, key, first);
      }
    }
  }

  /** A triggered hit never needs the dirty ratio. */
  lemma TriggeredIsNext(s: Store, component: EntityId, current: Raw, maxHp: Raw, lock: LockHpResult, delta: Raw)
    ensures Triggers(current, maxHp, lock, delta) ==> NextHp(s, component, current, maxHp, lock, delta).Ok?
  {
    hide Triggers, ClampHp, LockFloor, Add, DirtyBound;
  }

  lemma SameWritable(s: Store, t: Store, key: EntryKey)
    requires (key in t.entries <==> key in s.entries) && (key in s.entries ==> t.entries[key] == s.entries[key])
    ensures Writable(t, key) <==> Writable(s, key)
  {
    hide Supported;
  }

  // -------------------------------------------------------------------------
  // Whole runs
  // -------------------------------------------------------------------------

  /** The hit will report, in its log record for `key`, what the entry then reads. */
  ghost predicate DamageReports(s: Store, records: seq<LockHpRecord>, component: EntityId, delta: Raw, damageKind: int,
                                mode: int, gate: bool, key: EntryKey) {
    var current, maxHp := ReadProperty(s, component, CURRENT_HP), ReadProperty(s, component, MAX_HP);
    mode == 0 && current.Ok? && maxHp.Ok? ==>
      HitReports(s, component, current.value, maxHp.value, LockOf(records, damageKind), delta, gate, key)
  }

  lemma DamageTells(s: Store, records: seq<LockHpRecord>, component: EntityId, delta: Raw, damageKind: int, mode: int,
                    gate: bool, key: EntryKey, first: Raw)
    ensures Told(Transition(s, records, component, delta, damageKind, mode, gate).0, key, first) <==>
      Told(s, key, first) && DamageReports(s, records, component, delta, damageKind, mode, gate, key)
  {
    hide Told, Hit, LockOf, HitReports;
    if mode == 0 && ReadProperty(s, component, CURRENT_HP).Ok? && ReadProperty(s, component, MAX_HP).Ok? {
      HitTells(s, component, ReadProperty(s, component, CURRENT_HP).value, ReadProperty(s, component, MAX_HP).value,
               LockOf(records, damageKind), delta, gate, key, first);
    }
  }

  /** The difference that setting HP asks for. */
  function SetDownDelta(s: Store, component: EntityId, modifyValue: Raw, modifyRatio: Raw): Raw {
    SetHpDelta(SetHpTarget(modifyValue, ValueOf(s, component, MAX_HP), modifyRatio), ValueOf(s, component, CURRENT_HP))
  }

  /** The step will report, in its log record for `key`, what the entry then reads.  Only a hit whose
      overflow spills can fail to. */
  ghost predicate Reports(s: Store, step: LogStep, key: EntryKey) {
    match step
    case Damage(records, component, delta, damageKind, mode, gate) =>
      DamageReports(s, records, component, delta, damageKind, mode, gate, key)
    case SetDown(records, component, modifyValue, modifyRatio, damageKind, gate) =>
      var delta := SetDownDelta(s, component, modifyValue, modifyRatio);
      Less(delta, ZERO) ==> DamageReports(s, records, component, delta, damageKind, 0, gate, key)
    case _ => true
  }

  lemma SetDownTells(s: Store, records: seq<LockHpRecord>, component: EntityId, modifyValue: Raw, modifyRatio: Raw,
                     damageKind: int, gate: bool, key: EntryKey, first: Raw)
    ensures Told(ChangeNegative(s, records, component, modifyValue, modifyRatio, damageKind, gate).0, key, first) <==>
      Told(s, key, first) && Reports(s, SetDown(records, component, modifyValue, modifyRatio, damageKind, gate), key)
  {
    hide Told, Transition, SetHpTarget, SetHpDelta, Compare, HitReports, LockOf;
    DamageTells(s, records, component, SetDownDelta(s, component, modifyValue, modifyRatio), damageKind, 0, gate, key, first);
  }

  /** Every step of the run reports truly, judged each time on the store the step starts from. */
  ghost predicate AllReport(s: Store, steps: seq<LogStep>, key: EntryKey)
    decreases |steps|
  {
    steps == [] || (Reports(s, steps[0], key) && AllReport(LogApply(s, steps[0]), steps[1..], key))
  }

  lemma LogApplyTells(s: Store, step: LogStep, key: EntryKey, first: Raw)
    ensures Told(LogApply(s, step), key, first) <==> Told(s, key, first) && Reports(s, step, key)
  {
    hide Told, Apply, Allocate, Update, Remove, Transition, ChangeNegative, DamageReports;
    match step
    case Owned(st) =>
      ApplyTells(s, st, key, first);
    case ComponentStack(k, v) =>
      if k in s.entries && Allocate(s.entries[k], v).Ok? {
        CommitTells(s, k, SourceAllocated, ChosenSlot(s.entries[k]), Allocate(s.entries[k], v).value, key, first);
      }
    case ComponentUpdate(k, slot, v) =>
      if k in s.entries && Update(s.entries[k], slot, v).Ok? {
        CommitTells(s, k, SourceUpdated, slot, Update(s.entries[k], slot, v).value, key, first);
      }
    case ComponentRemove(k, slot) =>
      if k in s.entries && Remove(s.entries[k], slot).Ok? {
        CommitTells(s, k, SourceRemoved, slot, Remove(s.entries[k], slot).value, key, first);
      }
    case Damage(records, component, delta, damageKind, mode, gate) =>
      DamageTells(s, records, component, delta, damageKind, mode, gate, key, first);
    case SetDown(records, component, modifyValue, modifyRatio, damageKind, gate) =>
      SetDownTells(s, records, component, modifyValue, modifyRatio, damageKind, gate, key, first);
  }

  /** Over any run of component, modifier, source-0 and HP writes, refused ones included, an entry's
      boundary records chain from the value the run started with to the value it ends with exactly
      when, before each hit that spills into that entry, the entry was one to read the total back. */
  lemma {:induction false} RunTells(s: Store, steps: seq<LogStep>, key: EntryKey, first: Raw)
    ensures Told(LogRun(s, steps), key, first) <==> Told(s, key, first) && AllReport(s, steps, key)
    decreases |steps|
  {
    hide Told, LogApply, Reports;
    if steps != [] {
      LogApplyTells(s, steps[0], key, first);
      RunTells(LogApply(s, steps[0]), steps[1..], key, first);
    }
  }

  // -------------------------------------------------------------------------
  // What every run keeps
  // -------------------------------------------------------------------------

  ghost predicate EntrySound(r: EntryRecord) {
    WellStamped(r) && InSync(r)
  }

  /** The entry, if any, keeps its kind, its post stages and its slot 0, and stays well stamped and in
      step if it was. */
  ghost predicate EntryKept(s: Store, t: Store, key: EntryKey) {
    && (key in t.entries <==> key in s.entries)
    && (key in s.entries ==>
         var r, r' := s.entries[key], t.entries[key];
         r'.kind == r.kind && r'.post == r.post && |r'.value| >= |r.value| && (EntrySound(r) ==> EntrySound(r')))
  }

  lemma AttemptKeeps(r: EntryRecord, op: SlotOp)
    requires Attempt(r, op).Ok?
    ensures var r' := Attempt(r, op).value;
      r'.kind == r.kind && r'.post == r.post && |r'.value| >= |r.value| && (EntrySound(r) ==> EntrySound(r'))
  {
    hide Materialize, CountActive, WellStamped, InSync;
    if EntrySound(r) {
      StepKeeps(r, op);
    }
  }

  lemma {:induction false} RemovalsKeep(s: Store, records: seq<Contribution>, key: EntryKey)
    ensures EntryKept(s, RemoveRecords(s, records).0, key)
    decreases |records|
  {
    hide Remove, EntrySound;
    if records != [] && RemoveSource(s, records[0].key, records[0].slot).Ok? {
      var c := records[0];
      AttemptKeeps(s.entries[c.key], RemoveOp(c.slot));
      RemovalsKeep(RemoveSource(s, c.key, c.slot).value, records[1..], key);
    }
  }

  lemma SourcesKeep(s: Store, k: EntryKey, slot: nat, v: Raw, key: EntryKey)
    ensures match StackSource(s, k, v) case Ok((t, _)) => EntryKept(s, t, key) case Err(_) => true
    ensures match UpdateSource(s, k, slot, v) case Ok(t) => EntryKept(s, t, key) case Err(_) => true
    ensures match RemoveSource(s, k, slot) case Ok(t) => EntryKept(s, t, key) case Err(_) => true
  {
    hide Allocate, Update, Remove, EntrySound;
    if k in s.entries {
      if Allocate(s.entries[k], v).Ok? {
        AttemptKeeps(s.entries[k], AllocateOp(v));
      }
      if Update(s.entries[k], slot, v).Ok? {
        AttemptKeeps(s.entries[k], UpdateOp(slot, v));
      }
      if Remove(s.entries[k], slot).Ok? {
        AttemptKeeps(s.entries[k], RemoveOp(slot));
      }
    }
  }

  lemma ModifyKeepsEntry(s: Store, k: EntryKey, functionId: int, operand: Raw, key: EntryKey)
    ensures match ModifySourceZero(s, k, functionId, operand) case Ok(t) => EntryKept(s, t, key) case Err(_) => true
  {
    hide Update, EntrySound;
    if k in s.entries {
      var v := ApplyModifyFunction(functionId, s.entries[k].materialized, operand);
      if Update(s.entries[k], 0, v).Ok? {
        AttemptKeeps(s.entries[k], UpdateOp(0, v));
      }
    }
  }

  lemma ApplyKeepsEntry(s: Store, step: Step, key: EntryKey)
    ensures EntryKept(s, Apply(s, step), key)
  {
    hide StackSource, UpdateSource, ModifySourceZero, RemoveRecords, EntrySound;
    match step
    case Stack(m, stateRaw, k, v, isRefresh) =>
      var records := RecordsOf(s, m);
      var found := FindRecord(records, k);
      SourcesKeep(Listed(s, m), k, if found.Some? then records[found.value].slot else 0, v, key);
    case Pop(m) =>
      RemovalsKeep(s, RecordsOf(s, m), key);
    case Modify(k, functionId, operand) =>
      ModifyKeepsEntry(s, k, functionId, operand, key);
  }

  lemma WriteKeepsEntry(s: Store, component: EntityId, property: int, v: Raw, shown: Option<Raw>, key: EntryKey)
    requires WriteProperty(s, component, property, v, shown).Ok?
    ensures EntryKept(s, WriteProperty(s, component, property, v, shown).value, key)
  {
    hide Update, EntrySound;
    AttemptKeeps(s.entries[KeyOf(component, property)], UpdateOp(0, v));
  }

  lemma SpillKeepsEntry(s: Store, component: EntityId, overflow: Raw, delta: Raw, result: HpResult, key: EntryKey)
    ensures EntryKept(s, Spill(s, component, overflow, delta, result).0, key)
  {
    hide WriteProperty, Subtract, Add, EntrySound;
    if ReadProperty(s, component, NEGATIVE_HP).Ok? {
      var total := Add(ReadProperty(s, component, NEGATIVE_HP).value, overflow);
      if WriteProperty(s, component, NEGATIVE_HP, total, Some(total)).Ok? {
        WriteKeepsEntry(s, component, NEGATIVE_HP, total, Some(total), key);
      }
    }
  }

  lemma HitKeepsEntry(s: Store, component: EntityId, current: Raw, maxHp: Raw, lock: LockHpResult, delta: Raw, gate: bool,
                      key: EntryKey)
    ensures EntryKept(s, Hit(s, component, current, maxHp, lock, delta, gate).0, key)
  {
    hide WriteProperty, NextHp, Spill, Overflow, Triggers, IsPositive, Subtract, Compare, EntrySound;
    var next := NextHp(s, component, current, maxHp, lock, delta);
    if next.Ok? && WriteProperty(s, component, CURRENT_HP, next.value, None).Ok? {
      WriteSucceedsIff(s, component, CURRENT_HP, next.value, None);
      WriteKeepsEntry(s, component, CURRENT_HP, next.value, None, key);
      var s1 := WriteProperty(s, component, CURRENT_HP, next.value, None).value;
      var written := s1.entries[KeyOf(component, CURRENT_HP)].materialized;
      var triggered := Triggers(current, maxHp, lock, delta);
      var overflow := Overflow(current, maxHp, lock, delta);
      var result := HpResult(current, written, Subtract(written, current), lock, triggered, overflow, next.value, None, None,
                             LessEqual(next.value, ZERO));
      SpillKeepsEntry(s1, component, overflow, delta, result, key);
    }
  }

  lemma DamageKeepsEntry(s: Store, records: seq<LockHpRecord>, component: EntityId, delta: Raw, damageKind: int, mode: int,
                         gate: bool, key: EntryKey)
    ensures EntryKept(s, Transition(s, records, component, delta, damageKind, mode, gate).0, key)
  {
    hide Hit, LockOf, EntrySound;
    if mode == 0 && ReadProperty(s, component, CURRENT_HP).Ok? && ReadProperty(s, component, MAX_HP).Ok? {
      HitKeepsEntry(s, component, ReadProperty(s, component, CURRENT_HP).value, ReadProperty(s, component, MAX_HP).value,
                    LockOf(records, damageKind), delta, gate, key);
    }
  }

  lemma SetDownKeepsEntry(s: Store, records: seq<LockHpRecord>, component: EntityId, modifyValue: Raw, modifyRatio: Raw,
                          damageKind: int, gate: bool, key: EntryKey)
    ensures EntryKept(s, ChangeNegative(s, records, component, modifyValue, modifyRatio, damageKind, gate).0, key)
  {
    hide Transition, SetHpTarget, SetHpDelta, Compare, EntrySound;
    DamageKeepsEntry(s, records, component, SetDownDelta(s, component, modifyValue, modifyRatio), damageKind, 0, gate, key);
  }

  lemma LogApplyKeepsEntry(s: Store, step: LogStep, key: EntryKey)
    ensures EntryKept(s, LogApply(s, step), key)
  {
    hide Transition, ChangeNegative, StackSource, UpdateSource, RemoveSource, Apply, EntrySound;
    match step
    case Owned(st) => ApplyKeepsEntry(s, st, key);
    case ComponentStack(k, v) => SourcesKeep(s, k, 0, v, key);
    case ComponentUpdate(k, slot, v) => SourcesKeep(s, k, slot, v, key);
    case ComponentRemove(k, slot) => SourcesKeep(s, k, slot, 0, key);
    case Damage(records, component, delta, damageKind, mode, gate) =>
      DamageKeepsEntry(s, records, component, delta, damageKind, mode, gate, key);
    case SetDown(records, component, modifyValue, modifyRatio, damageKind, gate) =>
      SetDownKeepsEntry(s, records, component, modifyValue, modifyRatio, damageKind, gate, key);
  }

  /** Every entry stays what it was in kind, and well stamped and in step if it was, over any run of
      component, modifier, source-0 and HP writes. */
  lemma {:induction false} RunKeepsEntry(s: Store, steps: seq<LogStep>, key: EntryKey)
    ensures EntryKept(s, LogRun(s, steps), key)
    decreases |steps|
  {
    hide LogApply, EntrySound;
    if steps != [] {
      LogApplyKeepsEntry(s, steps[0], key);
      RunKeepsEntry(LogApply(s, steps[0]), steps[1..], key);
    }
  }

  /** So a battle whose entries are well stamped and in step stays one. */
  lemma RunKeepsEntriesSound(s: Store, steps: seq<LogStep>)
    requires EntriesSound(s)
    ensures EntriesSound(LogRun(s, steps))
  {
    hide LogRun, WellStamped, InSync;
    forall key | key in LogRun(s, steps).entries
      ensures EntrySound(LogRun(s, steps).entries[key])
    {
      RunKeepsEntry(s, steps, key);
    }
  }

  // -------------------------------------------------------------------------
  // Entries whose history is always whole
  // -------------------------------------------------------------------------

  /** No spill goes into the entry, or its kind reads back whatever is written to slot 0. */
  ghost predicate NeverMisread(s: Store, key: EntryKey) {
    key.property == NEGATIVE_HP && key in s.entries ==> s.entries[key].kind !in {3, 4, 6, 7}
  }

  lemma NeverMisreadReports(s: Store, step: LogStep, key: EntryKey)
    requires NeverMisread(s, key)
    ensures Reports(s, step, key)
  {
    hide Spills, LockOf, Overflow, Add, FoldAdd, FoldMultiply, Less, Greater, OtherValues, SetDownDelta, Supported;
  }

  /** Every entry that is not a NegativeHP has an unbroken history over every run, and so has a
      NegativeHP of the selecting kinds 1 and 2. */
  lemma {:induction false} AlwaysTold(s: Store, steps: seq<LogStep>, key: EntryKey, first: Raw)
    requires Told(s, key, first) && NeverMisread(s, key)
    ensures Told(LogRun(s, steps), key, first)
    decreases |steps|
  {
    hide Told, LogApply, Reports, EntrySound;
    if steps != [] {
      NeverMisreadReports(s, steps[0], key);
      LogApplyTells(s, steps[0], key, first);
      LogApplyKeepsEntry(s, steps[0], key);
      AlwaysTold(LogApply(s, steps[0]), steps[1..], key, first);
    }
  }
}

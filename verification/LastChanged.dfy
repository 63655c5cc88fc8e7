/** Entries of the last-changed kind: what they read after a run, and when erasing a modifier
changes that. */
module LastChanged {
  import opened Wrappers
  import opened FixPoint
  import opened PropertyEntries
  import opened BattleStates
  import opened PropertyRuntime
  import opened SlotLaws
  import opened Ownership
  import opened Ledgers
  import Erasure

  /** A last-changed entry with a reserved slot 0, as `create_empty` makes them. */
  predicate ReadsLastChanged(r: EntryRecord) {
    r.kind == 2 && r.post.AllNull() && r.value != []
  }

  /** The step writes the entry: a stack or refresh of a living modifier, or a source-0
      modification of an ordinary property.  On such an entry neither is ever refused. */
  predicate Writes(step: Step, key: EntryKey) {
    match step
    case Stack(_, stateRaw, k, _, _) => k == key && stateRaw <= ALIVE
    case Pop(_) => false
    case Modify(k, _, _) => k == key && key.property !in SPECIAL_PROPERTIES
  }

  function Written(step: Step, current: Raw): Raw {
    match step
    case Stack(_, _, _, v, _) => v
    case Pop(_) => current
    case Modify(_, functionId, operand) => ApplyModifyFunction(functionId, current, operand)
  }

  /** The last value the steps write, or the current one when they write none. */
  function LastWrite(steps: seq<Step>, key: EntryKey, current: Raw): Raw {
    if steps == [] then current
    else LastWrite(steps[1..], key, if Writes(steps[0], key) then Written(steps[0], current) else current)
  }

  // -------------------------------------------------------------------------
  // One step
  // -------------------------------------------------------------------------

  /** What a last-changed entry reads is determined by these parts of it. */
  ghost predicate SameReading(r: EntryRecord, r': EntryRecord) {
    && r'.kind == r.kind && r'.post == r.post && r'.base == r.base && r'.value == r.value
    && r'.lastChanged == r.lastChanged
  }

  lemma Reading(r: EntryRecord)
    requires ReadsLastChanged(r) && InSync(r)
    ensures r.materialized == if r.lastChanged < |r.value| then r.value[r.lastChanged] else r.base
  {
    hide ActiveValues, FoldAdd, FoldMultiply;
  }

  lemma RemovalKeepsReading(r: EntryRecord, i: int)
    requires Remove(r, i).Ok?
    ensures SameReading(r, Remove(r, i).value)
  {
    hide Materialize;
  }

  lemma {:induction false} RemovalsKeepReading(s: Store, records: seq<Contribution>, key: EntryKey)
    requires key in s.entries
    ensures key in RemoveRecords(s, records).0.entries
    ensures SameReading(s.entries[key], RemoveRecords(s, records).0.entries[key])
    decreases |records|
  {
    hide Remove;
    if records != [] && RemoveSource(s, records[0].key, records[0].slot).Ok? {
      var c := records[0];
      RemovalKeepsReading(s.entries[c.key], c.slot);
      RemovalsKeepReading(RemoveSource(s, c.key, c.slot).value, records[1..], key);
    }
  }

  lemma PopKeepsReading(s: Store, m: ModifierRef, key: EntryKey)
    requires Sound(s) && key in s.entries && ReadsLastChanged(s.entries[key])
    ensures Reads(Apply(s, Pop(m)), key, s.entries[key].materialized)
  {
    hide InSync, WellStamped, RemoveRecords, RecordsPoint, NoSharing, NoOrphans;
    PopKeeps(s, m);
    RemovalsKeepReading(s, RecordsOf(s, m), key);
    Reading(s.entries[key]);
    Reading(PopContributions(s, m).0.entries[key]);
  }

  /** After the step the entry still reads its last change, and reads `v`. */
  ghost predicate Reads(t: Store, key: EntryKey, v: Raw) {
    key in t.entries && ReadsLastChanged(t.entries[key]) && t.entries[key].materialized == v
  }

  /** A changed slot that is the last one changed is what the entry reads. */
  lemma ChangeIsRead(r: EntryRecord, r': EntryRecord, i: nat, v: Raw)
    requires ReadsLastChanged(r) && ChangesOnly(r, r', i) && r'.value[i] == v && r'.lastChanged == i && InSync(r')
    ensures ReadsLastChanged(r') && r'.materialized == v
  {
    hide InSync;
    Reading(r');
  }

  lemma UpdateIsRead(r: EntryRecord, i: int, v: Raw)
    requires ReadsLastChanged(r) && WellStamped(r) && InSync(r) && 0 <= i < |r.value|
    ensures Update(r, i, v).Ok? && ReadsLastChanged(Update(r, i, v).value) && Update(r, i, v).value.materialized == v
  {
    hide InSync, WellStamped, Update, ChangesOnly;
    UpdateShape(r, i, v);
    StepKeeps(r, UpdateOp(i, v));
    ChangeIsRead(r, Update(r, i, v).value, i, v);
  }

  lemma AllocationIsRead(r: EntryRecord, v: Raw)
    requires ReadsLastChanged(r) && WellStamped(r) && InSync(r)
    ensures Allocate(r, v).Ok? && ReadsLastChanged(Allocate(r, v).value) && Allocate(r, v).value.materialized == v
  {
    hide InSync, WellStamped, Allocate, ChangesOnly;
    AllocateShape(r, v);
    StepKeeps(r, AllocateOp(v));
    ChangeIsRead(r, Allocate(r, v).value, ChosenSlot(r), v);
  }

  lemma StackIsRead(s: Store, m: ModifierRef, key': EntryKey, v: Raw, isRefresh: bool, key: EntryKey)
    requires Sound(s) && m in s.owned && key in s.entries && ReadsLastChanged(s.entries[key])
    ensures Reads(StackListed(s, m, key', v, isRefresh).0, key, if key' == key then v else s.entries[key].materialized)
  {
    hide WellStamped, InSync, Update, Allocate, ReadsLastChanged, NoSharing, NoOrphans, Supported;
    var found := FindRecord(s.owned[m], key');
    if key' == key {
      if isRefresh && found.Some? {
        var c := s.owned[m][found.value];
        assert IsRecord(s, m, found.value) && ValidRecord(s, m, c);
        UpdateIsRead(s.entries[key], c.slot, v);
      } else {
        AllocationIsRead(s.entries[key], v);
      }
    }
  }

  lemma ModifyIsRead(s: Store, key': EntryKey, functionId: int, operand: Raw, key: EntryKey)
    requires Sound(s) && key in s.entries && ReadsLastChanged(s.entries[key])
    ensures var current := s.entries[key].materialized;
      var step := Modify(key', functionId, operand);
      Reads(Apply(s, step), key, if Writes(step, key) then Written(step, current) else current)
  {
    hide WellStamped, InSync, Update, RecordsPoint, NoSharing, NoOrphans, ApplyModifyFunction;
    if key' == key {
      UpdateIsRead(s.entries[key], 0, ApplyModifyFunction(functionId, s.entries[key].materialized, operand));
    }
  }

  lemma StepIsRead(s: Store, step: Step, key: EntryKey)
    requires Sound(s) && key in s.entries && ReadsLastChanged(s.entries[key])
    ensures var current := s.entries[key].materialized;
      Reads(Apply(s, step), key, if Writes(step, key) then Written(step, current) else current)
  {
    match step
    case Stack(m, stateRaw, key', v, isRefresh) =>
      EmptyListKeeps(s, m);
      hide Sound, StackListed;
      StackIsRead(Listed(s, m), m, key', v, isRefresh, key);
    case Pop(m) =>
      PopKeepsReading(s, m, key);
    case Modify(key', functionId, operand) =>
      ModifyIsRead(s, key', functionId, operand, key);
  }

  // -------------------------------------------------------------------------
  // Whole runs
  // -------------------------------------------------------------------------

  /** After any run a last-changed entry reads the last value written to it, popped or not. */
  lemma {:induction false} RunReadsLastWrite(s: Store, steps: seq<Step>, key: EntryKey)
    requires Sound(s) && key in s.entries && ReadsLastChanged(s.entries[key])
    ensures key in Ownership.Run(s, steps).entries
    ensures Ownership.Run(s, steps).entries[key].materialized == LastWrite(steps, key, s.entries[key].materialized)
    decreases |steps|
  {
    hide Sound, Apply, Writes, Written, ReadsLastChanged;
    if steps != [] {
      StepIsRead(s, steps[0], key);
      ApplyKeeps(s, steps[0]);
      RunReadsLastWrite(Apply(s, steps[0]), steps[1..], key);
    }
  }

  lemma {:induction false} PopWritesNothing(steps: seq<Step>, a: ModifierRef, key: EntryKey, current: Raw)
    ensures LastWrite(steps + [Pop(a)], key, current) == LastWrite(steps, key, current)
    decreases |steps|
  {
    if steps == [] {
      assert [Pop(a)][1..] == [];
    } else {
      assert (steps + [Pop(a)])[1..] == steps[1..] + [Pop(a)];
      PopWritesNothing(steps[1..], a, key, if Writes(steps[0], key) then Written(steps[0], current) else current);
    }
  }

  /** Erasing a modifier keeps what a last-changed entry reads exactly when the last write is equal
      with and without that modifier's steps. */
  lemma ErasureKeepsLastChangedIff(s0: Store, steps: seq<Step>, a: ModifierRef, key: EntryKey)
    requires Sound(s0) && key in s0.entries && ReadsLastChanged(s0.entries[key])
    ensures var s, t := Ownership.Run(s0, steps + [Pop(a)]), Ownership.Run(s0, Erase(steps, a));
      var current := s0.entries[key].materialized;
      && key in s.entries && key in t.entries
      && (Equal(s.entries[key].materialized, t.entries[key].materialized) <==>
           Equal(LastWrite(steps, key, current), LastWrite(Erase(steps, a), key, current)))
  {
    hide Sound, ReadsLastChanged, Compare, Ownership.Run, Erase, LastWrite;
    RunReadsLastWrite(s0, steps + [Pop(a)], key);
    RunReadsLastWrite(s0, Erase(steps, a), key);
    PopWritesNothing(steps, a, key, s0.entries[key].materialized);
  }

  /** A write that sets its value decides, whatever came before, when nothing writes after it. */
  lemma {:induction false} LastSetDecides(p: seq<Step>, w: Step, q: seq<Step>, key: EntryKey, current: Raw)
    requires Writes(w, key) && IsSet(w) && forall step :: step in q ==> !Writes(step, key)
    ensures LastWrite(p + ([w] + q), key, current) == Written(w, ZERO)
    decreases |p| + |q|
  {
    if p != [] {
      assert (p + ([w] + q))[1..] == p[1..] + ([w] + q);
      LastSetDecides(p[1..], w, q, key, if Writes(p[0], key) then Written(p[0], current) else current);
    } else {
      assert p + ([w] + q) == [w] + q && ([w] + q)[1..] == q;
      NothingWritten(q, key, Written(w, current));
    }
  }

  lemma {:induction false} NothingWritten(q: seq<Step>, key: EntryKey, current: Raw)
    requires forall step :: step in q ==> !Writes(step, key)
    ensures LastWrite(q, key, current) == current
  {
    if q != [] {
      NothingWritten(q[1..], key, current);
    }
  }

  /** So when somebody else wrote last, erasing the modifier changes nothing: only a last write of
      the erased modifier itself can survive its pop. */
  lemma OthersWroteLast(p: seq<Step>, w: Step, q: seq<Step>, a: ModifierRef, key: EntryKey, current: Raw)
    requires Writes(w, key) && IsSet(w) && !IsStepOf(w, a) && forall step :: step in q ==> !Writes(step, key)
    ensures LastWrite(p + ([w] + q), key, current) == LastWrite(Erase(p + ([w] + q), a), key, current)
  {
    hide Writes, IsSet, IsStepOf, LastWrite, Written;
    LastSetDecides(p, w, q, key, current);
    Erasure.EraseConcat(p, [w] + q, a);
    Erasure.EraseConcat([w], q, a);
    assert [w][1..] == [] && Erase([w], a) == [w];
    Erasure.EraseLeavesNone(q, a);
    LastSetDecides(Erase(p, a), w, Erase(q, a), key, current);
  }
}

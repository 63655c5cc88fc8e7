/** Invariants of the slot allocator over every run of slot operations on one entry. */
module SlotLaws {
  import opened Wrappers
  import opened FixPoint
  import opened PropertyEntries

  /** Active slots are the ones with a positive generation, generations name at most one slot
      each and come from the counter, and the extent counts the active slots. */
  ghost predicate WellStamped(r: EntryRecord) {
    && (forall i :: 0 <= i < |r.active| ==> (r.active[i] <==> r.generation[i] > 0))
    && (forall i :: 0 <= i < |r.generation| ==> r.generation[i] <= r.counter)
    && (forall i, j :: 0 <= i < j < |r.generation| && r.generation[i] > 0 ==> r.generation[i] != r.generation[j])
    && r.extent == CountActive(r.active)
  }

  /** Null post stages and a kind with a proven formula: exactly when a rebuild succeeds. */
  predicate Supported(r: EntryRecord)
    ensures Supported(r) <==> Rebuild(r).Ok?
  {
    r.post.AllNull() && r.kind in {1, 2, 3, 4, 6, 7}
  }

  /** The cache holds what a rebuild would compute, wherever a rebuild is possible. */
  ghost predicate InSync(r: EntryRecord) {
    Supported(r) ==> Rebuild(r) == Ok(r)
  }

  /** How many contribution slots, those from index 1 upward, are active. */
  function ActiveContributions(r: EntryRecord): nat {
    if r.active == [] then 0 else CountActive(r.active[1..])
  }

  datatype SlotOp = AllocateOp(v: Raw) | UpdateOp(i: int, v: Raw) | RemoveOp(i: int)

  function Attempt(r: EntryRecord, op: SlotOp): Result<EntryRecord, PropertyError> {
    match op
    case AllocateOp(v) => Allocate(r, v)
    case UpdateOp(i, v) => Update(r, i, v)
    case RemoveOp(i) => Remove(r, i)
  }

  /** A refused operation is not stored. */
  function Step(r: EntryRecord, op: SlotOp): EntryRecord {
    match Attempt(r, op)
    case Ok(r') => r'
    case Err(_) => r
  }

  function Run(r: EntryRecord, ops: seq<SlotOp>): EntryRecord
    decreases |ops|
  {
    if ops == [] then r else Run(Step(r, ops[0]), ops[1..])
  }

  /** The most contribution slots simultaneously active along a run. */
  function Peak(r: EntryRecord, ops: seq<SlotOp>): nat
    decreases |ops|
  {
    var rest := if ops == [] then 0 else Peak(Step(r, ops[0]), ops[1..]);
    if rest > ActiveContributions(r) then rest else ActiveContributions(r)
  }

  // -------------------------------------------------------------------------
  // One operation
  // -------------------------------------------------------------------------

  lemma RebuildIsSync(r: EntryRecord)
    ensures match Rebuild(r)
      case Ok(r') => InSync(r') && r' == r.(materialized := r'.materialized) && Materialize(r') == Some(r'.materialized)
      case Err(_) => true
  {
    hide FoldAdd, FoldMultiply, ActiveValues;
    match Rebuild(r)
    case Ok(r') => assert Materialize(r') == Materialize(r);
    case Err(_) =>
  }

  lemma RoomIsWellStamped(r: EntryRecord)
    requires WellStamped(r)
    ensures WellStamped(WithRoom(r))
  {
    var z := ReserveSourceZero(r);
    if ChosenSlot(r) == |z.value| {
      assert Grow(z).active[..|z.active|] == z.active;
    }
  }

  lemma StampKeeps(r: EntryRecord, i: nat, v: Raw)
    requires WellStamped(r) && i < |r.value|
    ensures WellStamped(WriteSlot(r, i, v)) && WellStamped(DisableSlot(r, i))
  {
  }

  lemma StepKeeps(r: EntryRecord, op: SlotOp)
    requires WellStamped(r) && InSync(r)
    ensures WellStamped(Step(r, op)) && InSync(Step(r, op))
    ensures Step(r, op).kind == r.kind && Step(r, op).base == r.base && Step(r, op).post == r.post
    ensures |Step(r, op).value| >= |r.value|
  {
    hide Materialize, CountActive;
    match op
    case AllocateOp(v) =>
      RoomIsWellStamped(r);
      StampKeeps(WithRoom(r), ChosenSlot(r), v);
      RebuildIsSync(WriteSlot(WithRoom(r), ChosenSlot(r), v));
    case UpdateOp(i, v) =>
      if 0 <= i < |r.value| {
        StampKeeps(r, i, v);
        RebuildIsSync(WriteSlot(r, i, v));
      }
    case RemoveOp(i) =>
      if 0 <= i < |r.value| {
        StampKeeps(r, i, 0);
        RebuildIsSync(DisableSlot(r, i));
      }
  }

  lemma AllActiveCount(active: seq<bool>)
    requires forall i :: 0 <= i < |active| ==> active[i]
    ensures CountActive(active) == |active|
  {
  }

  /** The arrays grow only when every contribution slot is taken. */
  lemma GrowsOnlyWhenFull(r: EntryRecord, op: SlotOp)
    ensures |Step(r, op).value| <= |r.value| || |Step(r, op).value| == 1 + ActiveContributions(Step(r, op))
  {
    hide Materialize;
    if op.AllocateOp? && Allocate(r, op.v).Ok? && |Step(r, op).value| > |r.value| {
      var r' := Step(r, op);
      assert r'.active == WithRoom(r).active[ChosenSlot(r) := true];
      AllActiveCount(r'.active[1..]);
    }
  }

  // -------------------------------------------------------------------------
  // Whole runs
  // -------------------------------------------------------------------------

  /** Every run keeps the stamping discipline and the cache in step. */
  lemma {:induction false} RunKeeps(r: EntryRecord, ops: seq<SlotOp>)
    requires WellStamped(r) && InSync(r)
    ensures WellStamped(Run(r, ops)) && InSync(Run(r, ops))
    decreases |ops|
  {
    if ops != [] {
      StepKeeps(r, ops[0]);
      RunKeeps(Step(r, ops[0]), ops[1..]);
    }
  }

  /** Slots are reused before the arrays grow: the length never passes one more than the peak
      number of simultaneously active contributions, unless it started there. */
  lemma {:induction false} LengthBoundedByPeak(r: EntryRecord, ops: seq<SlotOp>)
    ensures |Run(r, ops).value| <= |r.value| || |Run(r, ops).value| <= 1 + Peak(r, ops)
    decreases |ops|
  {
    if ops != [] {
      var next := Step(r, ops[0]);
      GrowsOnlyWhenFull(r, ops[0]);
      LengthBoundedByPeak(next, ops[1..]);
      assert ActiveContributions(next) <= Peak(next, ops[1..]) <= Peak(r, ops);
    }
  }

  /** A fresh entry starts in step unless a selecting kind was given a base: those two kinds
      rebuild from the still empty slot 0. */
  lemma FreshEntryInSync(kind: int, base: Raw)
    ensures WellStamped(CreateEmpty(kind, base))
    ensures InSync(CreateEmpty(kind, base)) <==> kind !in {1, 2} || base == 0
  {
    var r := CreateEmpty(kind, base);
    assert ActivePrefix(r.active, r.value, 1) == ActivePrefix(r.active, r.value, 0) + [] == [];
  }

  // -------------------------------------------------------------------------
  // Frames
  // -------------------------------------------------------------------------

  /** Nothing but slot `i` changed: no other slot moved, and any other new slot is inactive. */
  ghost predicate ChangesOnly(r: EntryRecord, r': EntryRecord, i: nat) {
    && |r.value| <= |r'.value| && i < |r'.value|
    && (forall j :: 0 <= j < |r.value| && j != i ==> r'.active[j] == r.active[j] && r'.value[j] == r.value[j])
    && (forall j :: |r.value| <= j < |r'.value| && j != i ==> !r'.active[j])
    && r'.kind == r.kind && r'.base == r.base && r'.post == r.post
  }

  /** Allocation puts the value into a slot from index 1 upward that was not active before. */
  lemma AllocateShape(r: EntryRecord, v: Raw)
    ensures Allocate(r, v).Ok? <==> Supported(r)
    ensures Allocate(r, v).Ok? ==>
      var r', i := Allocate(r, v).value, ChosenSlot(r);
      && ChangesOnly(r, r', i) && 1 <= i && r'.active[i] && r'.value[i] == v
      && (i < |r.value| ==> !r.active[i]) && r'.lastChanged == i
  {
    hide Materialize;
    assert Supported(WriteSlot(WithRoom(r), ChosenSlot(r), v)) <==> Supported(r);
  }

  lemma UpdateShape(r: EntryRecord, i: int, v: Raw)
    ensures Update(r, i, v).Ok? <==> 0 <= i < |r.value| && Supported(r)
    ensures Update(r, i, v).Ok? ==>
      var r' := Update(r, i, v).value;
      ChangesOnly(r, r', i) && |r'.value| == |r.value| && r'.active[i] && r'.value[i] == v && r'.lastChanged == i
  {
    hide Materialize;
    if 0 <= i < |r.value| {
      assert Supported(WriteSlot(r, i, v)) <==> Supported(r);
    }
  }

  lemma NoneActive(active: seq<bool>, i: nat)
    requires CountActive(active) == 0 && i < |active|
    ensures !active[i]
  {
  }

  /** Removal disables the slot and keeps its stale value. */
  lemma RemoveShape(r: EntryRecord, i: int)
    requires WellStamped(r)
    ensures Remove(r, i).Ok? <==> 0 <= i < |r.value| && (Supported(r) || r.extent == 0)
    ensures Remove(r, i).Ok? ==>
      var r' := Remove(r, i).value;
      ChangesOnly(r, r', i) && |r'.value| == |r.value| && !r'.active[i] && r'.value == r.value
  {
    hide Materialize;
    if 0 <= i < |r.value| {
      assert Supported(DisableSlot(r, i)) <==> Supported(r);
      if r.extent == 0 {
        NoneActive(r.active, i);
      }
    }
  }

  // -------------------------------------------------------------------------
  // Entries that read their slot 0
  // -------------------------------------------------------------------------

  /** An entry that reads its slot 0 after every source-0 write: kind 1, or kind 2, which reads the
      slot changed last. */
  predicate TracksSlotZero(r: EntryRecord) {
    r.kind in {1, 2} && r.post.AllNull() && r.value != []
  }

  /** Writing slot 0 of such an entry always succeeds and reads back the written value itself. */
  lemma SlotZeroTracks(r: EntryRecord, v: Raw)
    requires TracksSlotZero(r)
    ensures Update(r, 0, v).Ok? && Update(r, 0, v).value.materialized == v && TracksSlotZero(Update(r, 0, v).value)
    ensures !r.post.hookContext
  {
    hide FoldAdd, FoldMultiply, ActiveValues, CountActive;
    var w := WriteSlot(r, 0, v);
    assert Materialize(w) == Some(v);
  }

  /** Why a slot cannot be written: it is not there, or the entry cannot be rebuilt because of a post
      stage or of its kind. */
  function WriteRefusal(r: EntryRecord, i: int): PropertyError {
    if i < 0 || i >= |r.value| then SourceIndexOutOfRange
    else if r.post.hookContext || r.post.transformA || r.post.transformB then UnsupportedPostStage
    else UnsupportedKind(r.kind)
  }

  lemma SlotRefusals(r: EntryRecord, i: int, v: Raw)
    ensures Allocate(r, v).Err? ==>
      Allocate(r, v).error == if r.post == PostStages(false, false, false) then UnsupportedKind(r.kind) else UnsupportedPostStage
    ensures Update(r, i, v).Err? ==> Update(r, i, v).error == WriteRefusal(r, i)
    ensures Remove(r, i).Err? ==> Remove(r, i).error == WriteRefusal(r, i)
    ensures Remove(r, i).Err? && 0 <= i < |r.value| ==> r.extent != 0
  {
    hide Materialize, ChosenSlot;
    assert WithRoom(r).kind == r.kind && WithRoom(r).post == r.post;
  }

  /** A write takes the next number of the counter and puts it on its slot alone; a removal takes
      none and puts zero there. */
  lemma WritesAreNumbered(r: EntryRecord, i: nat, v: Raw)
    ensures match Update(r, i, v)
      case Ok(t) => i < |r.generation| && t.counter == r.counter + 1 && t.generation == r.generation[i := r.counter + 1]
      case Err(_) => true
    ensures match Allocate(r, v)
      case Ok(t) => var k := ChosenSlot(r);
        && k < |t.generation| && t.counter == r.counter + 1 && t.generation[k] == r.counter + 1
        && forall j :: 0 <= j < |r.generation| && j != k ==> j < |t.generation| && t.generation[j] == r.generation[j]
      case Err(_) => true
    ensures match Remove(r, i)
      case Ok(t) => i < |r.generation| && t.counter == r.counter && (t == r || t.generation == r.generation[i := 0])
      case Err(_) => true
  {
    hide Materialize, CountActive, FirstFree;
  }
}

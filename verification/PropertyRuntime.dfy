/** Component-level source operations and the modifier-owned contribution lifecycle.

`Store` is the part of the battle state that these operations read and write, together with the
boundary log.  Each operation is a function on stores; the method of the same purpose changes a
`BattleState` in place and is proved to do exactly that.
 */
module PropertyRuntime {
  import opened Wrappers
  import opened FixPoint
  import opened PropertyEntries
  import opened BattleStates

  datatype Store = Store(
    entries: map<EntryKey, EntryRecord>,
    owned: map<ModifierRef, seq<Contribution>>,
    log: seq<Boundary>)

  ghost function StoreOf(state: BattleState, sink: BoundaryLog): Store
    reads state, sink
  {
    Store(state.entries, state.contributions, sink.items)
  }

  const SPECIAL_PROPERTIES: set<int> := {10, 12, 14, 16, 18, 20, 22, 24, 26, 28, 30, 32}

  // -------------------------------------------------------------------------
  // Specification
  // -------------------------------------------------------------------------

  /** Store a changed entry and log the step from its old to its new materialized value. */
  function Commit(s: Store, key: EntryKey, op: BoundaryOperation, slot: nat, r: EntryRecord): Store
    requires key in s.entries
  {
    s.(entries := s.entries[key := r],
       log := s.log + [Boundary(op, key, slot, s.entries[key].materialized, r.materialized)])
  }

  function StackSource(s: Store, key: EntryKey, v: Raw): Result<(Store, nat), PropertyError> {
    if key !in s.entries then Err(EntryNotFound)
    else
      match Allocate(s.entries[key], v)
      case Err(e) => Err(e)
      case Ok(r) =>
        var slot := ChosenSlot(s.entries[key]);
        Ok((Commit(s, key, SourceAllocated, slot, r), slot))
  }

  function UpdateSource(s: Store, key: EntryKey, slot: nat, v: Raw): Result<Store, PropertyError> {
    if key !in s.entries then Err(EntryNotFound)
    else
      match Update(s.entries[key], slot, v)
      case Err(e) => Err(e)
      case Ok(r) => Ok(Commit(s, key, SourceUpdated, slot, r))
  }

  function RemoveSource(s: Store, key: EntryKey, slot: nat): Result<Store, PropertyError> {
    if key !in s.entries then Err(EntryNotFound)
    else
      match Remove(s.entries[key], slot)
      case Err(e) => Err(e)
      case Ok(r) => Ok(Commit(s, key, SourceRemoved, slot, r))
  }

  function ModifySourceZero(s: Store, key: EntryKey, functionId: int, operand: Raw): Result<Store, PropertyError> {
    if key.property in SPECIAL_PROPERTIES then Err(UnsupportedSpecialProperty)
    else if key !in s.entries then Err(EntryNotFound)
    else
      var r := s.entries[key];
      if r.post.hookContext then Err(UnsupportedPostStage)
      else
        match Update(r, 0, ApplyModifyFunction(functionId, r.materialized, operand))
        case Err(e) => Err(e)
        case Ok(r') => Ok(Commit(s, key, AfterPropertyChanged, 0, r'))
  }

  function RecordsOf(s: Store, m: ModifierRef): seq<Contribution> {
    if m in s.owned then s.owned[m] else []
  }

  /** The first record of a list for an entry. */
  function FindRecord(records: seq<Contribution>, key: EntryKey): (found: Option<nat>)
    ensures found.Some? ==> found.value < |records| && records[found.value].key == key
    ensures found.None? ==> forall c :: c in records ==> c.key != key
  {
    if records == [] then None
    else if records[0].key == key then Some(0)
    else
      match FindRecord(records[1..], key)
      case None => None
      case Some(i) => Some(i + 1)
  }

  /** The store with a (possibly empty) record list for `m`. */
  function Listed(s: Store, m: ModifierRef): Store {
    s.(owned := s.owned[m := RecordsOf(s, m)])
  }

  /** Refresh the first record for the entry, or else allocate a slot and append a record. */
  function StackListed(s: Store, m: ModifierRef, key: EntryKey, v: Raw, isRefresh: bool)
    : (Store, Result<Option<nat>, PropertyError>)
    requires m in s.owned
  {
    var records := s.owned[m];
    var found := FindRecord(records, key);
    if isRefresh && found.Some? then
      var slot := records[found.value].slot;
      match UpdateSource(s, key, slot, v)
      case Err(e) => (s, Err(e))
      case Ok(s1) => (s1, Ok(Some(slot)))
    else
      match StackSource(s, key, v)
      case Err(e) => (s, Err(e))
      case Ok((s1, slot)) =>
        (s1.(owned := s1.owned[m := records + [Contribution(m, key, slot)]]), Ok(Some(slot)))
  }

  /** Stack one contribution of modifier `m`; `stateRaw` is the modifier's life-cycle state.  A
      failing allocation still leaves the (possibly new) record list behind. */
  function StackContribution(s: Store, m: ModifierRef, stateRaw: int, key: EntryKey, v: Raw, isRefresh: bool)
    : (Store, Result<Option<nat>, PropertyError>)
  {
    if stateRaw > ALIVE then (s, Ok(None)) else StackListed(Listed(s, m), m, key, v, isRefresh)
  }

  /** Disable the slots of a record list front to back, stopping at the first failure. */
  function RemoveRecords(s: Store, records: seq<Contribution>): (Store, Option<PropertyError>)
    decreases |records|
  {
    if records == [] then (s, None)
    else
      match RemoveSource(s, records[0].key, records[0].slot)
      case Err(e) => (s, Some(e))
      case Ok(s') => RemoveRecords(s', records[1..])
  }

  /** Disable all of a modifier's slots and forget its records; the records stay on a failure. */
  function PopContributions(s: Store, m: ModifierRef): (Store, Option<PropertyError>) {
    var (s', failure) := RemoveRecords(s, RecordsOf(s, m));
    if failure.Some? then (s', failure) else (s'.(owned := s'.owned - {m}), None)
  }

  // -------------------------------------------------------------------------
  // Runtime
  // -------------------------------------------------------------------------

  method StoreEntry(state: BattleState, sink: BoundaryLog, key: EntryKey, op: BoundaryOperation, slot: nat,
                    before: Raw, entry: PropertyEntry)
    requires entry.Valid() && key in state.entries && before == state.entries[key].materialized
    modifies state`entries, sink
    ensures StoreOf(state, sink) == Commit(old(StoreOf(state, sink)), key, op, slot, entry.Record())
    ensures entry.Valid() && entry.Record() == old(entry.Record())
  {
    state.entries := state.entries[key := entry.Record()];
    sink.items := sink.items + [Boundary(op, key, slot, before, entry.materialized)];
  }

  method ComponentStackSource(state: BattleState, key: EntryKey, v: Raw, sink: BoundaryLog)
    returns (r: Result<nat, PropertyError>)
    modifies state`entries, sink
    ensures match StackSource(old(StoreOf(state, sink)), key, v)
      case Ok((s, slot)) => r == Ok(slot) && StoreOf(state, sink) == s
      case Err(e) => r == Err(e) && StoreOf(state, sink) == old(StoreOf(state, sink))
  {
    if key !in state.entries {
      return Err(EntryNotFound);
    }
    var entry := new PropertyEntry.FromRecord(state.entries[key]);
    var before := entry.materialized;
    r := entry.AllocateSourceSlot(v);
    if r.Ok? {
      StoreEntry(state, sink, key, SourceAllocated, r.value, before, entry);
    }
  }

  method UpdateContributionSource(state: BattleState, key: EntryKey, slot: nat, v: Raw, sink: BoundaryLog)
    returns (failure: Option<PropertyError>)
    modifies state`entries, sink
    ensures match UpdateSource(old(StoreOf(state, sink)), key, slot, v)
      case Ok(s) => failure == None && StoreOf(state, sink) == s
      case Err(e) => failure == Some(e) && StoreOf(state, sink) == old(StoreOf(state, sink))
  {
    if key !in state.entries {
      return Some(EntryNotFound);
    }
    var entry := new PropertyEntry.FromRecord(state.entries[key]);
    var before := entry.materialized;
    failure := entry.UpdateSourceSlot(slot, v);
    if failure == None {
      StoreEntry(state, sink, key, SourceUpdated, slot, before, entry);
    }
  }

  method RemoveContributionSource(state: BattleState, key: EntryKey, slot: nat, sink: BoundaryLog)
    returns (failure: Option<PropertyError>)
    modifies state`entries, sink
    ensures match RemoveSource(old(StoreOf(state, sink)), key, slot)
      case Ok(s) => failure == None && StoreOf(state, sink) == s
      case Err(e) => failure == Some(e) && StoreOf(state, sink) == old(StoreOf(state, sink))
  {
    if key !in state.entries {
      return Some(EntryNotFound);
    }
    var entry := new PropertyEntry.FromRecord(state.entries[key]);
    var before := entry.materialized;
    failure := entry.RemoveSourceSlot(slot);
    if failure == None {
      StoreEntry(state, sink, key, SourceRemoved, slot, before, entry);
    }
  }

  method ModifySourceZeroUntransformed(state: BattleState, key: EntryKey, functionId: int, operand: Raw,
                                       sink: BoundaryLog)
    returns (failure: Option<PropertyError>)
    modifies state`entries, sink
    ensures match ModifySourceZero(old(StoreOf(state, sink)), key, functionId, operand)
      case Ok(s) => failure == None && StoreOf(state, sink) == s
      case Err(e) => failure == Some(e) && StoreOf(state, sink) == old(StoreOf(state, sink))
  {
    if key.property in SPECIAL_PROPERTIES {
      return Some(UnsupportedSpecialProperty);
    }
    if key !in state.entries {
      return Some(EntryNotFound);
    }
    var entry := new PropertyEntry.FromRecord(state.entries[key]);
    if entry.post.hookContext {
      return Some(UnsupportedPostStage);
    }
    var before := entry.materialized;
    var candidate := ApplyModifyFunction(functionId, before, operand);
    failure := entry.UpdateSourceSlot(0, candidate);
    if failure == None {
      StoreEntry(state, sink, key, AfterPropertyChanged, 0, before, entry);
    }
  }

  method StackPropertyContribution(state: BattleState, m: ModifierRef, stateRaw: int, key: EntryKey, v: Raw,
                                   isRefresh: bool, sink: BoundaryLog)
    returns (r: Result<Option<nat>, PropertyError>)
    modifies state`entries, state`contributions, sink
    ensures (StoreOf(state, sink), r) == StackContribution(old(StoreOf(state, sink)), m, stateRaw, key, v, isRefresh)
  {
    if stateRaw > ALIVE {
      return Ok(None);
    }
    if m !in state.contributions {
      state.contributions := state.contributions[m := []];
    }
    var records := state.contributions[m];
    assert state.contributions == state.contributions[m := records];
    if isRefresh {
      var i := 0;
      while i < |records| && records[i].key != key
        invariant 0 <= i <= |records|
        invariant FindRecord(records, key) ==
          match FindRecord(records[i..], key) { case None => None case Some(j) => Some(i + j) }
      {
        assert records[i..][1..] == records[i + 1..];
        i := i + 1;
      }
      if i < |records| {
        var failure := UpdateContributionSource(state, key, records[i].slot, v, sink);
        return if failure == None then Ok(Some(records[i].slot)) else Err(failure.value);
      }
    }
    var stacked := ComponentStackSource(state, key, v, sink);
    if stacked.Err? {
      return Err(stacked.error);
    }
    state.contributions := state.contributions[m := records + [Contribution(m, key, stacked.value)]];
    r := Ok(Some(stacked.value));
  }

  method PopPropertyContributions(state: BattleState, m: ModifierRef, sink: BoundaryLog)
    returns (failure: Option<PropertyError>)
    modifies state`entries, state`contributions, sink
    ensures (StoreOf(state, sink), failure) == PopContributions(old(StoreOf(state, sink)), m)
  {
    var records := if m in state.contributions then state.contributions[m] else [];
    ghost var before := StoreOf(state, sink);
    for i := 0 to |records|
      invariant state.contributions == before.owned
      invariant RemoveRecords(StoreOf(state, sink), records[i..]) == RemoveRecords(before, records)
    {
      assert records[i..][0] == records[i] && records[i..][1..] == records[i + 1..];
      failure := RemoveContributionSource(state, records[i].key, records[i].slot, sink);
      if failure.Some? {
        return;
      }
    }
    state.contributions := state.contributions - {m};
    failure := None;
  }
}

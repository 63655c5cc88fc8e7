/** The turn timeline: pick the entity with the least remaining delay, let that delay pass for
everybody, and recharge the actor when its action is acknowledged.

Remaining delay lives in property 38; the timeline itself holds the list order, the current actor,
the elapsed delay and the phase.
 */
module TurnRuntime {
  import opened Wrappers
  import opened FixPoint
  import opened PropertyEntries
  import opened BattleStates
  import opened PropertyRuntime

  const REMAINING_ACTION_DELAY: int := 38

  /** `ParticipantRejected` stands for the exceptions of the delay lookup: no entry, a negative
      delay, or an unresolved post stage. */
  datatype TurnError =
    | NotInitialized
    | InvalidTimeline
    | CompletionRequired
    | ParticipantRejected
    | NoParticipants
    | DuplicateParticipants
    | NoActiveAction
    | ActorMismatch
    | NegativeRecharge
    | MutationRejected(e: PropertyError)

  datatype TurnAdvance = TurnAdvance(
    actor: EntityId, selectedDelay: Raw, elapsed: Raw, ordered: seq<EntityId>, turnIndex: nat)

  // -------------------------------------------------------------------------
  // Specification
  // -------------------------------------------------------------------------

  predicate Distinct(ids: seq<EntityId>) {
    forall i, j :: 0 <= i < j < |ids| ==> ids[i] != ids[j]
  }

  function CheckTimeline(timeline: Option<Timeline>): (r: Result<Timeline, TurnError>)
    ensures r.Ok? ==> r.value.ids != [] && Distinct(r.value.ids) && !IsNegative(r.value.elapsed)
  {
    if timeline == None then Err(NotInitialized)
    else
      var t := timeline.value;
      if t.ids != [] && Distinct(t.ids) && !IsNegative(t.elapsed) then Ok(t) else Err(InvalidTimeline)
  }

  function DelayKey(e: EntityId): EntryKey {
    EntryKey(e, REMAINING_ACTION_DELAY)
  }

  function DelayEntry(entries: map<EntryKey, EntryRecord>, e: EntityId): Result<EntryRecord, TurnError> {
    if DelayKey(e) !in entries then Err(ParticipantRejected)
    else
      var r := entries[DelayKey(e)];
      if IsNegative(r.materialized) || !r.post.AllNull() then Err(ParticipantRejected) else Ok(r)
  }

  /** An entity's remaining delay; zero for one that has none. */
  function Delay(entries: map<EntryKey, EntryRecord>, e: EntityId): Raw {
    if DelayKey(e) in entries then entries[DelayKey(e)].materialized else ZERO
  }

  predicate AllParticipate(entries: map<EntryKey, EntryRecord>, ids: seq<EntityId>) {
    forall e :: e in ids ==> DelayEntry(entries, e).Ok?
  }

  /** Put `x` behind everything that is not slower than it. */
  function Insert(entries: map<EntryKey, EntryRecord>, s: seq<EntityId>, x: EntityId): (t: seq<EntityId>)
    ensures |t| == |s| + 1
    ensures multiset(t) == multiset(s) + multiset{x}
  {
    if s == [] then [x]
    else if Less(Delay(entries, x), Delay(entries, s[0])) then [x] + s
    else
      assert s == [s[0]] + s[1..];
      [s[0]] + Insert(entries, s[1..], x)
  }

  /** The action list sorted by remaining delay, keeping the order of ties. */
  function SortByDelay(entries: map<EntryKey, EntryRecord>, ids: seq<EntityId>): (t: seq<EntityId>)
    ensures |t| == |ids|
    ensures multiset(t) == multiset(ids)
  {
    if ids == [] then []
    else
      assert ids == ids[..|ids| - 1] + [ids[|ids| - 1]];
      Insert(entries, SortByDelay(entries, ids[..|ids| - 1]), ids[|ids| - 1])
  }

  /** What is left of a delay when `selected` passes. */
  function After(delay: Raw, selected: Raw): Raw {
    var candidate := Subtract(delay, selected);
    if IsNegative(candidate) then ZERO else candidate
  }

  /** Let `selected` pass for each entity in turn, stopping at the first failure. */
  function PassDelay(s: Store, ids: seq<EntityId>, selected: Raw): (Store, Option<TurnError>)
    decreases |ids|
  {
    if ids == [] then (s, None)
    else
      match DelayEntry(s.entries, ids[0])
      case Err(e) => (s, Some(e))
      case Ok(r) =>
        match ModifySourceZero(s, DelayKey(ids[0]), SET, After(r.materialized, selected))
        case Err(e) => (s, Some(MutationRejected(e)))
        case Ok(s') => PassDelay(s', ids[1..], selected)
  }

  datatype Clock = Clock(store: Store, timeline: Option<Timeline>)

  ghost function ClockOf(state: BattleState, sink: BoundaryLog): Clock
    reads state, sink
  {
    Clock(StoreOf(state, sink), state.timeline)
  }

  function Initialize(entries: map<EntryKey, EntryRecord>, participants: seq<Option<EntityId>>)
    : Result<Timeline, TurnError>
  {
    if participants == [] then Err(NoParticipants)
    else if None in participants then Err(ParticipantRejected)
    else
      var ids := seq(|participants|, i requires 0 <= i < |participants| => participants[i].GetOr(0));
      if !Distinct(ids) then Err(DuplicateParticipants)
      else if !AllParticipate(entries, ids) then Err(ParticipantRejected)
      else Ok(Timeline(ids, None, ZERO, 0, Ready, None))
  }

  function Advance(c: Clock): (Clock, Result<TurnAdvance, TurnError>) {
    match CheckTimeline(c.timeline)
    case Err(e) => (c, Err(e))
    case Ok(t) =>
      if t.phase == Active then (c, Err(CompletionRequired))
      else if !AllParticipate(c.store.entries, t.ids) then (c, Err(ParticipantRejected))
      else
        var ordered := SortByDelay(c.store.entries, t.ids);
        var actor := ordered[0];
        var selected := Delay(c.store.entries, actor);
        var (store, failure) := PassDelay(c.store, ordered, selected);
        if failure.Some? then (c.(store := store), Err(failure.value))
        else
          var elapsed := Add(t.elapsed, selected);
          (Clock(store, Some(Timeline(ordered, Some(actor), elapsed, t.turnIndex + 1, Active, None))),
           Ok(TurnAdvance(actor, selected, elapsed, ordered, t.turnIndex + 1)))
  }

  function Acknowledge(c: Clock, actor: EntityId, recharge: Raw, provenance: string): (Clock, Option<TurnError>) {
    match CheckTimeline(c.timeline)
    case Err(e) => (c, Some(e))
    case Ok(t) =>
      if t.phase != Active then (c, Some(NoActiveAction))
      else if t.actor != Some(actor) then (c, Some(ActorMismatch))
      else if IsNegative(recharge) then (c, Some(NegativeRecharge))
      else
        match ModifySourceZero(c.store, DelayKey(actor), SET, recharge)
        case Err(e) => (c, Some(MutationRejected(e)))
        case Ok(store) => (Clock(store, Some(t.(phase := Settled, provenance := Some(provenance)))), None)
  }

  // -------------------------------------------------------------------------
  // Runtime
  // -------------------------------------------------------------------------

  method InitializeTurnTimeline(state: BattleState, participants: seq<Option<EntityId>>)
    returns (failure: Option<TurnError>)
    modifies state`timeline
    ensures match Initialize(state.entries, participants)
      case Ok(t) => failure == None && state.timeline == Some(t)
      case Err(e) => failure == Some(e) && state.timeline == old(state.timeline)
    ensures failure == None ==>
      var t := state.timeline.value;
      && |t.ids| == |participants| && (forall i :: 0 <= i < |t.ids| ==> participants[i] == Some(t.ids[i]))
      && t.ids != [] && Distinct(t.ids) && AllParticipate(state.entries, t.ids)
      && t.phase == Ready && t.actor == None && t.elapsed == ZERO && t.turnIndex == 0
  {
    hide DelayEntry;
    if |participants| == 0 {
      return Some(NoParticipants);
    }
    var ids: seq<EntityId> := [];
    for i := 0 to |participants|
      invariant |ids| == i && forall j :: 0 <= j < i ==> participants[j] == Some(ids[j])
    {
      if participants[i] == None {
        return Some(ParticipantRejected);
      }
      ids := ids + [participants[i].value];
    }
    assert ids == seq(|participants|, i requires 0 <= i < |participants| => participants[i].GetOr(0));
    for i := 0 to |ids|
      invariant Distinct(ids[..i])
    {
      if ids[i] in ids[..i] {
        return Some(DuplicateParticipants);
      }
    }
    assert ids[..|ids|] == ids;
    for i := 0 to |ids|
      invariant forall j :: 0 <= j < i ==> DelayEntry(state.entries, ids[j]).Ok?
    {
      var entry := DelayEntry(state.entries, ids[i]);
      if entry.Err? {
        assert ids[i] in ids;
        RefusesWith(state.entries, ids[i]);
        return Some(entry.error);
      }
    }
    state.timeline := Some(Timeline(ids, None, ZERO, 0, Ready, None));
    failure := None;
  }

  lemma RefusesWith(entries: map<EntryKey, EntryRecord>, e: EntityId)
    ensures DelayEntry(entries, e).Err? ==> DelayEntry(entries, e).error == ParticipantRejected
  {
  }

  method AdvanceToNextActor(state: BattleState, sink: BoundaryLog) returns (r: Result<TurnAdvance, TurnError>)
    modifies state`entries, state`timeline, sink
    ensures (ClockOf(state, sink), r) == Advance(old(ClockOf(state, sink)))
  {
    hide Subtract, Add, Compare, IsNegative, Update;
    var checked := CheckTimeline(state.timeline);
    if checked.Err? {
      return Err(checked.error);
    }
    var t := checked.value;
    if t.phase == Active {
      return Err(CompletionRequired);
    }
    if !AllParticipate(state.entries, t.ids) {
      return Err(ParticipantRejected);
    }
    var entities := SortByDelay(state.entries, t.ids);
    var actor := entities[0];
    var selected := Delay(state.entries, actor);
    ghost var before := StoreOf(state, sink);
    for i := 0 to |entities|
      invariant state.timeline == old(state.timeline)
      invariant PassDelay(StoreOf(state, sink), entities[i..], selected) == PassDelay(before, entities, selected)
    {
      assert entities[i..][0] == entities[i] && entities[i..][1..] == entities[i + 1..];
      var entry := DelayEntry(state.entries, entities[i]);
      if entry.Err? {
        return Err(entry.error);
      }
      var candidate := Subtract(entry.value.materialized, selected);
      if IsNegative(candidate) {
        candidate := ZERO;
      }
      var failure := ModifySourceZeroUntransformed(state, DelayKey(entities[i]), SET, candidate, sink);
      if failure.Some? {
        return Err(MutationRejected(failure.value));
      }
    }
    var elapsed := Add(t.elapsed, selected);
    state.timeline := Some(Timeline(entities, Some(actor), elapsed, t.turnIndex + 1, Active, None));
    r := Ok(TurnAdvance(actor, selected, elapsed, entities, t.turnIndex + 1));
  }

  method AcknowledgeActionCompletion(state: BattleState, actor: EntityId, recharge: Raw, provenance: string,
                                     sink: BoundaryLog)
    returns (failure: Option<TurnError>)
    modifies state`entries, state`timeline, sink
    ensures (ClockOf(state, sink), failure) == Acknowledge(old(ClockOf(state, sink)), actor, recharge, provenance)
  {
    hide IsNegative, Update;
    var checked := CheckTimeline(state.timeline);
    if checked.Err? {
      return Some(checked.error);
    }
    var t := checked.value;
    if t.phase != Active {
      return Some(NoActiveAction);
    }
    if t.actor != Some(actor) {
      return Some(ActorMismatch);
    }
    if IsNegative(recharge) {
      return Some(NegativeRecharge);
    }
    var rejected := ModifySourceZeroUntransformed(state, DelayKey(actor), SET, recharge, sink);
    if rejected.Some? {
      return Some(MutationRejected(rejected.value));
    }
    state.timeline := Some(t.(phase := Settled, provenance := Some(provenance)));
    failure := None;
  }
}

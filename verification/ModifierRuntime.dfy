/** The modifier life cycle: match search, the stacking decision tree, destroy, refresh and sweep.

The registry maps each entity to its ordered list of modifier instances.  Every operation is a
function on registries; the method of the same purpose rewrites the registry of a battle state and
is proved to do exactly that.
 */
module ModifierRuntime {
  import opened Wrappers
  import opened BattleStates

  type Registry = map<EntityId, seq<ModifierState>>

  datatype Stacking =
    | Unknown
    | Unique
    | Refresh
    | Prolong
    | Multiple
    | Replace
    | Merge
    | ReplaceByCaster
    | ReplaceByCasterOrUnstack
    | EntityUnique
    | ReplaceButKeepLifetime
    | RetainGlobalLatest
    | ReplaceByCasterAbility
    | RetainGlobalLatestUnique

  datatype MatchKey = MatchKey(name: string, stackingFlag: int, caster: Option<EntityId>, provider: Option<int>)

  const ALIVE_OR_TO_BE_ADDED: int := 0
  const ALIVE_ONLY: int := 1
  const ANY_FLAG: int := 100

  datatype ModifierError = NotPresent | ProviderRequired

  datatype Disposition = Appended | DuplicateAppended | DestroyedAndAppended | DelayedExisting | ExistingProcessed

  datatype Lifecycle = Lifecycle(
    disposition: Disposition, modifier: ModifierState, beforeCount: nat, afterCount: nat, destroyed: Option<ModifierRef>)

  // -------------------------------------------------------------------------
  // Match search
  // -------------------------------------------------------------------------

  /** A filter outside {0, 1} lets every state through. */
  predicate MatchSearch(m: ModifierState, key: MatchKey, filter: int) {
    && m.name == key.name
    && (filter == ALIVE_OR_TO_BE_ADDED ==> m.stateRaw <= ALIVE)
    && (filter == ALIVE_ONLY ==> m.stateRaw == ALIVE)
    && (key.stackingFlag != ANY_FLAG ==> m.stackingFlag == key.stackingFlag)
    && (key.caster.Some? ==> m.caster == key.caster)
    && (key.provider.Some? ==> m.sourceProvider == key.provider)
  }

  /** The first matching index. */
  function FindIndex(items: seq<ModifierState>, key: MatchKey, filter: int): (found: Option<nat>)
    ensures found.Some? ==> found.value < |items| && MatchSearch(items[found.value], key, filter)
    ensures found.Some? ==> forall j :: 0 <= j < found.value ==> !MatchSearch(items[j], key, filter)
    ensures found.None? ==> forall m :: m in items ==> !MatchSearch(m, key, filter)
  {
    if items == [] then None
    else if MatchSearch(items[0], key, filter) then Some(0)
    else
      match FindIndex(items[1..], key, filter)
      case None => None
      case Some(i) => Some(i + 1)
  }

  /** The first index with this reference. */
  function IndexOf(items: seq<ModifierState>, ref: ModifierRef): (found: Option<nat>)
    ensures found.Some? ==> found.value < |items| && items[found.value].Ref() == ref
    ensures found.Some? ==> forall j :: 0 <= j < found.value ==> items[j].Ref() != ref
    ensures found.None? ==> forall m :: m in items ==> m.Ref() != ref
  {
    if items == [] then None
    else if items[0].Ref() == ref then Some(0)
    else
      match IndexOf(items[1..], ref)
      case None => None
      case Some(i) => Some(i + 1)
  }

  function ItemsOf(reg: Registry, e: EntityId): seq<ModifierState> {
    if e in reg then reg[e] else []
  }

  // -------------------------------------------------------------------------
  // Leaves
  // -------------------------------------------------------------------------

  function NextOrdinal(items: seq<ModifierState>): (n: nat)
    ensures forall m :: m in items ==> m.ordinal < n
    ensures if items == [] then n == 0 else exists m :: m in items && n == m.ordinal + 1
  {
    if items == [] then 0
    else
      var rest := NextOrdinal(items[..|items| - 1]);
      var last := items[|items| - 1].ordinal + 1;
      assert items == items[..|items| - 1] + [items[|items| - 1]];
      if last > rest then last else rest
  }

  predicate Keeps(m: ModifierState) {
    m.stateRaw == ALIVE || m.destroyGuard > 0
  }

  /** The items the sweep keeps, in order. */
  function Kept(items: seq<ModifierState>): seq<ModifierState> {
    if items == [] then []
    else
      var n := |items| - 1;
      Kept(items[..n]) + if Keeps(items[n]) then [items[n]] else []
  }

  function Destroyed(m: ModifierState): ModifierState {
    if m.stateRaw > ALIVE then m else m.(stateRaw := TO_BE_REMOVED)
  }

  /** Life, count and layer after an existing instance is hit by another of its kind. */
  function Redd(existing: ModifierState, stacking: Stacking, newCount: nat, newLife: int): ModifierState {
    var m := existing.(isMaxLayer := existing.layer >= if existing.maxLayer > 1 then existing.maxLayer else 1);
    var bounded := newLife != -1 && existing.previousLife != -1;
    match stacking
    case Refresh | Replace | ReplaceByCaster | ReplaceByCasterOrUnstack | ReplaceByCasterAbility =>
      m.(currentLife := newLife, count := newCount, previousLife := newLife)
    case Prolong =>
      var life := if bounded then existing.currentLife + newLife else -1;
      m.(currentLife := life, previousLife := life)
    case Merge =>
      var life := if !bounded then -1 else if existing.currentLife >= newLife then existing.currentLife else newLife;
      m.(currentLife := life, previousLife := life)
    case ReplaceButKeepLifetime => m.(count := newCount)
    case _ => m
  }

  /** The instance an addition appends: alive, owned by the target, with the caller's identity. */
  function NewInstance(items: seq<ModifierState>, target: EntityId, m: ModifierState, key: MatchKey): ModifierState {
    m.(owner := target, ordinal := NextOrdinal(items), stateRaw := ALIVE, stackingFlag := key.stackingFlag,
       caster := key.caster, sourceProvider := key.provider, isMaxLayer := false)
  }

  // -------------------------------------------------------------------------
  // Operations
  // -------------------------------------------------------------------------

  function ReplaceByRef(reg: Registry, target: EntityId, ref: ModifierRef, change: ModifierState -> ModifierState)
    : Result<(Registry, ModifierState), ModifierError>
  {
    var items := ItemsOf(reg, target);
    match IndexOf(items, ref)
    case None => Err(NotPresent)
    case Some(i) =>
      var m := change(items[i]);
      Ok((reg[target := items[i := m]], m))
  }

  function Destroy(reg: Registry, target: EntityId, ref: ModifierRef): Result<(Registry, ModifierState), ModifierError> {
    ReplaceByRef(reg, target, ref, Destroyed)
  }

  function ProcessRedd(reg: Registry, target: EntityId, ref: ModifierRef, stacking: Stacking, newCount: nat, newLife: int)
    : Result<(Registry, ModifierState), ModifierError>
  {
    ReplaceByRef(reg, target, ref, m => Redd(m, stacking, newCount, newLife))
  }

  function Sweep(reg: Registry, target: EntityId): Registry {
    reg[target := Kept(ItemsOf(reg, target))]
  }

  function AppendNew(reg: Registry, target: EntityId, m: ModifierState, key: MatchKey): (Registry, ModifierState) {
    var items := ItemsOf(reg, target);
    var instance := NewInstance(items, target, m, key);
    (reg[target := items + [instance]], instance)
  }

  /** The bare append leaf, which checks no duplicates and keeps the given state. */
  function ApplyInstance(reg: Registry, target: EntityId, m: ModifierState): Registry {
    var items := ItemsOf(reg, target);
    reg[target := items + [m.(owner := target, ordinal := NextOrdinal(items))]]
  }

  /** Search a list of entities for the first with a match. */
  function FindOwner(reg: Registry, owners: seq<EntityId>, key: MatchKey): (found: Option<EntityId>)
    ensures found.Some? ==> found.value in owners && FindIndex(ItemsOf(reg, found.value), key, ALIVE_OR_TO_BE_ADDED).Some?
    ensures found.None? ==> forall e :: e in owners ==> FindIndex(ItemsOf(reg, e), key, ALIVE_OR_TO_BE_ADDED).None?
  {
    if owners == [] then None
    else if FindIndex(ItemsOf(reg, owners[0]), key, ALIVE_OR_TO_BE_ADDED).Some? then Some(owners[0])
    else FindOwner(reg, owners[1..], key)
  }

  predicate IsLeast(m: EntityId, ids: set<EntityId>) {
    m in ids && forall x :: x in ids ==> m <= x
  }

  lemma Inhabitant<T>(s: set<T>) returns (x: T)
    requires s != {}
    ensures x in s
  {
    x :| x in s;
  }

  lemma {:induction false} LeastExists(ids: set<EntityId>)
    requires ids != {}
    ensures exists m :: IsLeast(m, ids)
  {
    var m := Inhabitant(ids);
    var rest := ids - {m};
    assert forall x :: x in ids <==> x == m || x in rest;
    if rest == {} {
      assert IsLeast(m, ids);
    } else {
      LeastExists(rest);
      var n :| IsLeast(n, rest);
      assert IsLeast(if m <= n then m else n, ids);
    }
  }

  /** Entity ids in ascending order, as the global search visits them. */
  function Ascending(ids: set<EntityId>): (s: seq<EntityId>)
    ensures forall e :: e in s <==> e in ids
    ensures forall i, j :: 0 <= i < j < |s| ==> s[i] < s[j]
    decreases |ids|
  {
    if ids == {} then []
    else
      LeastExists(ids);
      var m :| IsLeast(m, ids);
      [m] + Ascending(ids - {m})
  }

  predicate NeedsProvider(stacking: Stacking) {
    stacking in {ReplaceByCaster, ReplaceByCasterOrUnstack, ReplaceByCasterAbility}
  }

  predicate IsGlobal(stacking: Stacking) {
    stacking in {RetainGlobalLatest, RetainGlobalLatestUnique}
  }

  function SearchTargets(reg: Registry, target: EntityId, stacking: Stacking): seq<EntityId> {
    if IsGlobal(stacking) then Ascending(reg.Keys) else [target]
  }

  /** The existing instance gives way to the new one instead of being processed in place. */
  predicate GivesWay(existing: ModifierState, target: EntityId, stacking: Stacking) {
    stacking == RetainGlobalLatest || (stacking == RetainGlobalLatestUnique && existing.caster != Some(target))
  }

  function TryAdd(reg: Registry, target: EntityId, m: ModifierState, stacking: Stacking, flag: int,
                  caster: Option<EntityId>, provider: Option<int>): (Registry, Result<Lifecycle, ModifierError>)
  {
    if NeedsProvider(stacking) && provider.None? then (reg, Err(ProviderRequired))
    else
      var key := MatchKey(m.name, flag, caster, provider);
      var before := |ItemsOf(reg, target)|;
      match FindOwner(reg, SearchTargets(reg, target, stacking), key)
      case None =>
        var (reg', instance) := AppendNew(reg, target, m, key);
        (reg', Ok(Lifecycle(Appended, instance, before, before + 1, None)))
      case Some(owner) =>
        var existing := ItemsOf(reg, owner)[FindIndex(ItemsOf(reg, owner), key, ALIVE_OR_TO_BE_ADDED).value];
        if stacking == Multiple then
          var (reg', instance) := AppendNew(reg, target, m, key);
          (reg', Ok(Lifecycle(DuplicateAppended, instance, before, before + 1, None)))
        else if GivesWay(existing, target, stacking) then
          match Destroy(reg, owner, existing.Ref())
          case Err(e) => (reg, Err(e))
          case Ok((reg1, _)) =>
            var (reg', instance) := AppendNew(reg1, target, m, key);
            (reg', Ok(Lifecycle(DestroyedAndAppended, instance, before, |ItemsOf(reg', target)|, Some(existing.Ref()))))
        else if existing.stateRaw == TO_BE_ADDED then
          (reg, Ok(Lifecycle(DelayedExisting, existing, before, before, None)))
        else
          match ProcessRedd(reg, owner, existing.Ref(), stacking, m.count, m.currentLife)
          case Err(e) => (reg, Err(e))
          case Ok((reg', updated)) => (reg', Ok(Lifecycle(ExistingProcessed, updated, before, before, None)))
  }

  // -------------------------------------------------------------------------
  // Runtime
  // -------------------------------------------------------------------------

  method ContainerFind(items: seq<ModifierState>, key: MatchKey, filter: int) returns (found: Option<nat>)
    ensures found == FindIndex(items, key, filter)
  {
    for i := 0 to |items|
      invariant FindIndex(items, key, filter) ==
        match FindIndex(items[i..], key, filter) { case None => None case Some(j) => Some(i + j) }
    {
      assert items[i..][1..] == items[i + 1..];
      if MatchSearch(items[i], key, filter) {
        return Some(i);
      }
    }
    found := None;
  }

  method ContainerIndexOf(items: seq<ModifierState>, ref: ModifierRef) returns (found: Option<nat>)
    ensures found == IndexOf(items, ref)
  {
    for i := 0 to |items|
      invariant IndexOf(items, ref) ==
        match IndexOf(items[i..], ref) { case None => None case Some(j) => Some(i + j) }
    {
      assert items[i..][1..] == items[i + 1..];
      if items[i].Ref() == ref {
        return Some(i);
      }
    }
    found := None;
  }

  method ApplyModifierInstance(state: BattleState, target: EntityId, m: ModifierState)
    modifies state`modifiers
    ensures state.modifiers == ApplyInstance(old(state.modifiers), target, m)
  {
    var container := ItemsOf(state.modifiers, target);
    var instance := m.(owner := target, ordinal := NextOrdinal(container));
    state.modifiers := state.modifiers[target := container + [instance]];
  }

  method DestroyModifierInstance(state: BattleState, target: EntityId, ref: ModifierRef)
    returns (r: Result<ModifierState, ModifierError>)
    modifies state`modifiers
    ensures match Destroy(old(state.modifiers), target, ref)
      case Ok((reg, m)) => r == Ok(m) && state.modifiers == reg
      case Err(e) => r == Err(e) && state.modifiers == old(state.modifiers)
  {
    var items := ItemsOf(state.modifiers, target);
    var index := ContainerIndexOf(items, ref);
    if index == None {
      return Err(NotPresent);
    }
    var existing := items[index.value];
    if existing.stateRaw > ALIVE {
      assert items[index.value := existing] == items;
      assert state.modifiers[target := items] == state.modifiers;
      return Ok(existing);
    }
    var updated := existing.(stateRaw := TO_BE_REMOVED);
    state.modifiers := state.modifiers[target := items[index.value := updated]];
    r := Ok(updated);
  }

  method ProcessModifierRedd(state: BattleState, target: EntityId, ref: ModifierRef, stacking: Stacking, newCount: nat,
                             newLife: int)
    returns (r: Result<ModifierState, ModifierError>)
    modifies state`modifiers
    ensures match ProcessRedd(old(state.modifiers), target, ref, stacking, newCount, newLife)
      case Ok((reg, m)) => r == Ok(m) && state.modifiers == reg
      case Err(e) => r == Err(e) && state.modifiers == old(state.modifiers)
  {
    var items := ItemsOf(state.modifiers, target);
    var index := ContainerIndexOf(items, ref);
    if index == None {
      return Err(NotPresent);
    }
    var updated := Redd(items[index.value], stacking, newCount, newLife);
    state.modifiers := state.modifiers[target := items[index.value := updated]];
    r := Ok(updated);
  }

  /** One round of the deletion loop: everything below the index is untouched, and what has been
      passed is already what the sweep keeps of it. */
  lemma SweepStep(all: seq<ModifierState>, container: seq<ModifierState>, index: nat)
    requires 0 < index <= |all| && index <= |container| && container[..index] == all[..index]
    requires Kept(all[..index]) + container[index..] == Kept(all)
    ensures
      var item := container[index - 1];
      var swept := if Keeps(item) then container else container[..index - 1] + container[index..];
      && index - 1 <= |swept| && swept[..index - 1] == all[..index - 1]
      && Kept(all[..index - 1]) + swept[index - 1..] == Kept(all)
  {
    hide Keeps, Kept;
    KeptPrefix(all, index);
    SamePrefix(all, container, index);
    if Keeps(container[index - 1]) {
      PassedOver(Kept(all[..index - 1]), container, index);
    } else {
      CutOut(container, index);
    }
  }

  lemma SamePrefix(all: seq<ModifierState>, container: seq<ModifierState>, index: nat)
    requires 0 < index <= |all| && index <= |container| && container[..index] == all[..index]
    ensures container[index - 1] == all[index - 1] && container[..index - 1] == all[..index - 1]
  {
    assert container[index - 1] == container[..index][index - 1] == all[index - 1];
    assert container[..index - 1] == container[..index][..index - 1];
    assert all[..index - 1] == all[..index][..index - 1];
  }

  lemma PassedOver(kept: seq<ModifierState>, container: seq<ModifierState>, index: nat)
    requires 0 < index <= |container|
    ensures kept + container[index - 1..] == (kept + [container[index - 1]]) + container[index..]
  {
    assert container[index - 1..] == [container[index - 1]] + container[index..];
  }

  lemma CutOut(container: seq<ModifierState>, index: nat)
    requires 0 < index <= |container|
    ensures var swept := container[..index - 1] + container[index..];
      swept[..index - 1] == container[..index - 1] && swept[index - 1..] == container[index..]
  {
  }

  lemma KeptPrefix(all: seq<ModifierState>, index: nat)
    requires 0 < index <= |all|
    ensures Kept(all[..index]) == if Keeps(all[index - 1]) then Kept(all[..index - 1]) + [all[index - 1]] else Kept(all[..index - 1])
  {
    hide Keeps;
    assert all[..index][..index - 1] == all[..index - 1];
  }

  /** The backward deletion loop keeps exactly the items to keep, in order. */
  method RemoveDirtyModifiers(state: BattleState, target: EntityId)
    modifies state`modifiers
    ensures state.modifiers == Sweep(old(state.modifiers), target)
  {
    hide Keeps, Kept;
    ghost var all := ItemsOf(state.modifiers, target);
    var container := ItemsOf(state.modifiers, target);
    var index := |container|;
    assert all[..index] == all && container[index..] == [];
    while index > 0
      invariant state.modifiers == old(state.modifiers)
      invariant 0 <= index <= |all| && index <= |container|
      invariant container[..index] == all[..index]
      invariant Kept(all[..index]) + container[index..] == Kept(all)
    {
      SweepStep(all, container, index);
      if !Keeps(container[index - 1]) {
        container := container[..index - 1] + container[index..];
      }
      index := index - 1;
    }
    SweepDone(all, container);
    state.modifiers := state.modifiers[target := container];
  }

  lemma SweepDone(all: seq<ModifierState>, container: seq<ModifierState>)
    requires Kept(all[..0]) + container[0..] == Kept(all)
    ensures container == Kept(all)
  {
    assert all[..0] == [] && Kept([]) == [];
    assert container[0..] == container && [] + container == container;
  }

  /** The first owner with a match, and the index of that match. */
  method SearchOwners(reg: Registry, owners: seq<EntityId>, key: MatchKey) returns (found: Option<(EntityId, nat)>)
    ensures match FindOwner(reg, owners, key)
      case None => found == None
      case Some(e) => found == Some((e, FindIndex(ItemsOf(reg, e), key, ALIVE_OR_TO_BE_ADDED).value))
  {
    for i := 0 to |owners|
      invariant FindOwner(reg, owners, key) == FindOwner(reg, owners[i..], key)
    {
      assert owners[i..][1..] == owners[i + 1..];
      var index := ContainerFind(ItemsOf(reg, owners[i]), key, ALIVE_OR_TO_BE_ADDED);
      if index.Some? {
        return Some((owners[i], index.value));
      }
    }
    found := None;
  }

  method TryAddModifierInstance(state: BattleState, target: EntityId, m: ModifierState, stacking: Stacking, flag: int,
                                caster: Option<EntityId>, provider: Option<int>)
    returns (r: Result<Lifecycle, ModifierError>)
    modifies state`modifiers
    ensures (state.modifiers, r) == TryAdd(old(state.modifiers), target, m, stacking, flag, caster, provider)
  {
    hide Redd, MatchSearch, NewInstance, Destroy, ProcessRedd, FindOwner, FindIndex;
    if NeedsProvider(stacking) && provider.None? {
      return Err(ProviderRequired);
    }
    var key := MatchKey(m.name, flag, caster, provider);
    var before := |ItemsOf(state.modifiers, target)|;
    var owned := SearchOwners(state.modifiers, SearchTargets(state.modifiers, target, stacking), key);
    if owned == None {
      var (reg', instance) := AppendNew(state.modifiers, target, m, key);
      state.modifiers := reg';
      return Ok(Lifecycle(Appended, instance, before, before + 1, None));
    }
    var (owner, index) := owned.value;
    var existing := ItemsOf(state.modifiers, owner)[index];
    if stacking == Multiple {
      var (reg', instance) := AppendNew(state.modifiers, target, m, key);
      state.modifiers := reg';
      return Ok(Lifecycle(DuplicateAppended, instance, before, before + 1, None));
    }
    if GivesWay(existing, target, stacking) {
      var destroyed := DestroyModifierInstance(state, owner, existing.Ref());
      if destroyed.Err? {
        return Err(destroyed.error);
      }
      var (reg', instance) := AppendNew(state.modifiers, target, m, key);
      state.modifiers := reg';
      return Ok(Lifecycle(DestroyedAndAppended, instance, before, |ItemsOf(reg', target)|, Some(existing.Ref())));
    }
    if existing.stateRaw == TO_BE_ADDED {
      return Ok(Lifecycle(DelayedExisting, existing, before, before, None));
    }
    var processed := ProcessModifierRedd(state, owner, existing.Ref(), stacking, m.count, m.currentLife);
    if processed.Err? {
      return Err(processed.error);
    }
    r := Ok(Lifecycle(ExistingProcessed, processed.value, before, before, None));
  }
}

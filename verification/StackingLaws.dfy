/** What hits and additions do to the modifier lists, told by the fields of the instances. */
module StackingLaws {
  import opened Wrappers
  import opened BattleStates
  import opened ModifierRuntime
  import opened ModifierLaws

  // -------------------------------------------------------------------------
  // Runs of hits on one instance
  // -------------------------------------------------------------------------

  /** Under the five replacing stackings the last hit alone decides life and count. */
  lemma {:induction false} ReplacingHits(m: ModifierState, stacking: Stacking, counts: seq<nat>, lives: seq<int>)
    requires stacking in {Refresh, Replace, ReplaceByCaster, ReplaceByCasterOrUnstack, ReplaceByCasterAbility}
    requires lives != [] && |counts| == |lives|
    ensures
      var after := ReddAll(m, stacking, counts, lives);
      && after.currentLife == lives[|lives| - 1] && after.previousLife == lives[|lives| - 1]
      && after.count == counts[|counts| - 1]
  {
  }

  /** Keeping the lifetime, it decides the count only. */
  lemma {:induction false} LifetimeKeepingHits(m: ModifierState, counts: seq<nat>, lives: seq<int>)
    requires lives != [] && |counts| == |lives|
    ensures
      var after := ReddAll(m, ReplaceButKeepLifetime, counts, lives);
      && after.currentLife == m.currentLife && after.previousLife == m.previousLife
      && after.count == counts[|counts| - 1]
  {
    var n := |lives| - 1;
    if n > 0 {
      LifetimeKeepingHits(m, counts[..n], lives[..n]);
    }
  }

  /** The remaining stackings, but for prolonging and merging, let no hit change life or count. */
  lemma {:induction false} IdleHits(m: ModifierState, stacking: Stacking, counts: seq<nat>, lives: seq<int>)
    requires stacking in {Unknown, Unique, Multiple, EntityUnique, RetainGlobalLatest, RetainGlobalLatestUnique}
    requires |counts| == |lives|
    ensures
      var after := ReddAll(m, stacking, counts, lives);
      after.currentLife == m.currentLife && after.previousLife == m.previousLife && after.count == m.count
  {
    var n := |lives| - 1;
    if n >= 0 {
      IdleHits(m, stacking, counts[..n], lives[..n]);
    }
  }

  /** Whatever the stacking, a hit instance knows whether its layer is the last, and nothing but
      that, its count and its two lives has changed. */
  lemma {:induction false} HitsKeepTheRest(m: ModifierState, stacking: Stacking, counts: seq<nat>, lives: seq<int>)
    requires |counts| == |lives|
    ensures
      var after := ReddAll(m, stacking, counts, lives);
      && (lives != [] ==> (after.isMaxLayer <==> m.layer >= 1 && m.layer >= m.maxLayer))
      && after == m.(count := after.count, currentLife := after.currentLife, previousLife := after.previousLife,
                     isMaxLayer := after.isMaxLayer)
  {
    var n := |lives| - 1;
    if n >= 0 {
      HitsKeepTheRest(m, stacking, counts[..n], lives[..n]);
    }
  }

  // -------------------------------------------------------------------------
  // Operations by reference
  // -------------------------------------------------------------------------

  /** Item i of the entity's list is the first of this name, owner and ordinal. */
  ghost predicate FirstNamed(reg: Registry, e: EntityId, ref: ModifierRef, i: nat) {
    && e in reg && i < |reg[e]| && ModifierRef(reg[e][i].name, reg[e][i].owner, reg[e][i].ordinal) == ref
    && forall j :: 0 <= j < i ==> ModifierRef(reg[e][j].name, reg[e][j].owner, reg[e][j].ordinal) != ref
  }

  /** A change by reference succeeds exactly where the reference is in the entity's list, and then
      changes the first such item there and nothing else in the registry. */
  lemma ChangesFirstNamed(reg: Registry, e: EntityId, ref: ModifierRef, change: ModifierState -> ModifierState)
    returns (i: nat)
    ensures
      match ReplaceByRef(reg, e, ref, change)
      case Ok((reg', m)) => FirstNamed(reg, e, ref, i) && m == change(reg[e][i]) && reg' == reg[e := reg[e][i := m]]
      case Err(_) => forall k: nat :: !FirstNamed(reg, e, ref, k)
  {
    var found := IndexOf(ItemsOf(reg, e), ref);
    i := if found.Some? then found.value else 0;
    if found.None? && e in reg {
      forall k: nat | k < |reg[e]|
        ensures ModifierRef(reg[e][k].name, reg[e][k].owner, reg[e][k].ordinal) != ref
      {
        assert reg[e][k] in reg[e];
      }
    }
  }

  /** Destroying marks the first item so named as to be removed, or leaves it if it is past that. */
  lemma DestroyMeaning(reg: Registry, e: EntityId, ref: ModifierRef) returns (i: nat)
    ensures
      match Destroy(reg, e, ref)
      case Ok((reg', m)) =>
        && FirstNamed(reg, e, ref, i) && reg' == reg[e := reg[e][i := m]]
        && m == reg[e][i].(stateRaw := if reg[e][i].stateRaw > 2 then reg[e][i].stateRaw else 2)
      case Err(_) => forall k: nat :: !FirstNamed(reg, e, ref, k)
  {
    i := ChangesFirstNamed(reg, e, ref, Destroyed);
  }

  /** A refresh hits the first item so named once. */
  lemma ReddMeaning(reg: Registry, e: EntityId, ref: ModifierRef, stacking: Stacking, newCount: nat, newLife: int)
    returns (i: nat)
    ensures
      match ProcessRedd(reg, e, ref, stacking, newCount, newLife)
      case Ok((reg', m)) =>
        && FirstNamed(reg, e, ref, i) && m == ReddAll(reg[e][i], stacking, [newCount], [newLife])
        && reg' == reg[e := reg[e][i := m]]
      case Err(_) => forall k: nat :: !FirstNamed(reg, e, ref, k)
  {
    hide Redd, ReplaceByRef;
    i := ChangesFirstNamed(reg, e, ref, m => Redd(m, stacking, newCount, newLife));
    if ProcessRedd(reg, e, ref, stacking, newCount, newLife).Ok? {
      var m := reg[e][i];
      assert ReddAll(m, stacking, [], []) == m;
      assert ReddAll(m, stacking, [newCount], [newLife]) == Redd(m, stacking, newCount, newLife);
    }
  }

  /** The bare append adds the instance as given, owned by the target and with the ordinal after the
      highest there, and looks for no duplicate. */
  lemma ApplyMeaning(reg: Registry, e: EntityId, m: ModifierState)
    ensures
      var reg', items := ApplyInstance(reg, e, m), if e in reg then reg[e] else [];
      && e in reg' && |reg'[e]| == |items| + 1
      && var added := reg'[e][|items|];
      && reg' == reg[e := items + [added]] && added == m.(owner := e, ordinal := added.ordinal)
      && (forall x :: x in items ==> x.ordinal < added.ordinal)
      && (if items == [] then added.ordinal == 0 else exists x :: x in items && added.ordinal == x.ordinal + 1)
  {
    hide NextOrdinal;
  }

  /** A sweep touches one entity's list, keeps the living and the guarded there, and drops the rest. */
  lemma SweepMeaning(reg: Registry, e: EntityId)
    ensures
      var reg', items := Sweep(reg, e), if e in reg then reg[e] else [];
      && e in reg' && reg' == reg[e := reg'[e]]
      && (forall m :: m in reg'[e] <==> m in items && (m.stateRaw == 1 || m.destroyGuard > 0))
      && (Increasing(items) ==> Increasing(reg'[e]))
  {
    hide Kept;
    KeptIsSubsequence(ItemsOf(reg, e));
  }

  // -------------------------------------------------------------------------
  // Additions
  // -------------------------------------------------------------------------

  /** The item answers to the name, is in a state the filter asks for, and agrees with the flag,
      caster and provider wherever one is asked for; 100 asks for no flag. */
  ghost predicate Agrees(m: ModifierState, key: MatchKey, filter: int) {
    && m.name == key.name
    && (if filter == 0 then m.stateRaw <= 1 else if filter == 1 then m.stateRaw == 1 else true)
    && key.stackingFlag in {100, m.stackingFlag}
    && key.caster in {None, m.caster}
    && key.provider in {None, m.sourceProvider}
  }

  /** A search finds an item exactly if it agrees and no earlier one does. */
  lemma FoundIff(items: seq<ModifierState>, key: MatchKey, filter: int, i: nat)
    ensures FindIndex(items, key, filter) == Some(i) <==>
      && i < |items| && Agrees(items[i], key, filter)
      && forall j :: 0 <= j < i ==> !Agrees(items[j], key, filter)
  {
    hide FindIndex;
    assert forall m :: MatchSearch(m, key, filter) <==> Agrees(m, key, filter);
    assert i < |items| ==> items[i] in items;
  }

  /** An addition looks for the living and those to be added. */
  ghost predicate IsTwin(m: ModifierState, key: MatchKey) {
    Agrees(m, key, 0)
  }

  /** The lists an addition looks at: its target's, or everybody's when the latest is retained. */
  ghost predicate InScope(e: EntityId, target: EntityId, stacking: Stacking) {
    e == target || stacking in {RetainGlobalLatest, RetainGlobalLatestUnique}
  }

  ghost predicate NoTwin(reg: Registry, target: EntityId, stacking: Stacking, key: MatchKey) {
    forall e, m :: e in reg && InScope(e, target, stacking) && m in reg[e] ==> !IsTwin(m, key)
  }

  /** Item i of the owner's list is the first twin: no earlier item is one, nor any item of a lower
      entity in scope. */
  ghost predicate FirstTwin(reg: Registry, target: EntityId, stacking: Stacking, key: MatchKey, owner: EntityId, i: nat) {
    && owner in reg && InScope(owner, target, stacking) && i < |reg[owner]| && IsTwin(reg[owner][i], key)
    && (forall j :: 0 <= j < i ==> !IsTwin(reg[owner][j], key))
    && (forall e, m :: e in reg && e < owner && InScope(e, target, stacking) && m in reg[e] ==> !IsTwin(m, key))
  }

  /** Only the target's list differs, by one more item at its end: alive, owned by the target, with
      the ordinal after the highest there, with the asked flag, caster and provider, and for the rest
      as given. */
  ghost predicate TailGains(reg: Registry, reg': Registry, target: EntityId, m: ModifierState, key: MatchKey,
                            added: ModifierState)
  {
    var items := if target in reg then reg[target] else [];
    && reg' == reg[target := items + [added]]
    && added == ModifierState(m.name, target, added.ordinal, 1, key.stackingFlag, m.count, m.layer, m.maxLayer,
                              m.currentLife, m.source, key.caster, m.previousLife, false, m.destroyGuard, key.provider)
    && (forall x :: x in items ==> x.ordinal < added.ordinal)
    && (if items == [] then added.ordinal == 0 else exists x :: x in items && added.ordinal == x.ordinal + 1)
  }

  function SizeOf(reg: Registry, e: EntityId): nat {
    if e in reg then |reg[e]| else 0
  }

  lemma ListSearch(items: seq<ModifierState>, key: MatchKey)
    ensures
      match FindIndex(items, key, ALIVE_OR_TO_BE_ADDED)
      case None => forall m :: m in items ==> !IsTwin(m, key)
      case Some(i) => i < |items| && IsTwin(items[i], key) && forall j :: 0 <= j < i ==> !IsTwin(items[j], key)
  {
    assert forall m :: MatchSearch(m, key, ALIVE_OR_TO_BE_ADDED) <==> IsTwin(m, key);
  }

  /** The owners before the one found hold no twin. */
  lemma {:induction false} OwnerSearch(reg: Registry, owners: seq<EntityId>, key: MatchKey) returns (i: nat)
    ensures i <= |owners| && (FindOwner(reg, owners, key) == if i < |owners| then Some(owners[i]) else None)
    ensures forall j, m :: 0 <= j < i && m in ItemsOf(reg, owners[j]) ==> !IsTwin(m, key)
    decreases |owners|
  {
    hide MatchSearch, FindIndex, IsTwin;
    i := 0;
    if owners != [] {
      ListSearch(ItemsOf(reg, owners[0]), key);
      if FindIndex(ItemsOf(reg, owners[0]), key, ALIVE_OR_TO_BE_ADDED).None? {
        var rest := OwnerSearch(reg, owners[1..], key);
        i := rest + 1;
        forall j, m | 0 <= j < i && m in ItemsOf(reg, owners[j])
          ensures !IsTwin(m, key)
        {
          if j > 0 {
            assert owners[1..][j - 1] == owners[j];
          }
        }
      }
    }
  }

  /** The search finds the first twin, or none where there is none. */
  lemma SearchMeaning(reg: Registry, target: EntityId, stacking: Stacking, key: MatchKey)
    ensures
      match FindOwner(reg, SearchTargets(reg, target, stacking), key)
      case None => NoTwin(reg, target, stacking, key)
      case Some(owner) =>
        && FindIndex(ItemsOf(reg, owner), key, ALIVE_OR_TO_BE_ADDED).Some?
        && FirstTwin(reg, target, stacking, key, owner, FindIndex(ItemsOf(reg, owner), key, ALIVE_OR_TO_BE_ADDED).value)
  {
    hide MatchSearch, FindIndex, IsTwin, FindOwner, Ascending;
    var owners := SearchTargets(reg, target, stacking);
    var i := OwnerSearch(reg, owners, key);
    forall e, m | e in reg && InScope(e, target, stacking) && m in reg[e] && (i < |owners| ==> e < owners[i])
      ensures !IsTwin(m, key)
    {
      var j :| 0 <= j < |owners| && owners[j] == e;
      assert j < i;
    }
    if i < |owners| {
      ListSearch(ItemsOf(reg, owners[i]), key);
    }
  }

  /** A first twin is there to be found just when there is a twin. */
  lemma TwinOrNot(reg: Registry, target: EntityId, stacking: Stacking, key: MatchKey, owner: EntityId, i: nat)
    requires FirstTwin(reg, target, stacking, key, owner, i)
    ensures !NoTwin(reg, target, stacking, key)
    ensures forall e, j: nat :: FirstTwin(reg, target, stacking, key, e, j) ==> e == owner && j == i
  {
    hide IsTwin, InScope;
    assert reg[owner][i] in reg[owner];
    forall e, j: nat | FirstTwin(reg, target, stacking, key, e, j)
      ensures e == owner && j == i
    {
      assert reg[e][j] in reg[e];
    }
  }

  lemma AppendMeaning(reg: Registry, target: EntityId, m: ModifierState, key: MatchKey)
    requires m.name == key.name
    ensures var (reg', added) := AppendNew(reg, target, m, key); TailGains(reg, reg', target, m, key, added)
  {
  }

  /** The three stackings by caster need a provider. */
  ghost predicate Accepted(stacking: Stacking, key: MatchKey) {
    stacking in {ReplaceByCaster, ReplaceByCasterOrUnstack, ReplaceByCasterAbility} ==> key.provider != None
  }

  /** An addition is refused exactly when one of the three stackings by caster comes without a
      provider, and then changes nothing. */
  lemma AddRefusedIff(reg: Registry, target: EntityId, m: ModifierState, stacking: Stacking, key: MatchKey)
    requires m.name == key.name
    ensures
      var (reg', r) := TryAdd(reg, target, m, stacking, key.stackingFlag, key.caster, key.provider);
      && (r.Ok? <==> Accepted(stacking, key))
      && (r.Err? ==> reg' == reg)
  {
    hide MatchSearch, FindIndex, FindOwner, SearchTargets, NewInstance, Redd, GivesWay, IndexOf, Destroyed;
    var owned := FindOwner(reg, SearchTargets(reg, target, stacking), key);
    if owned.Some? {
      var items := ItemsOf(reg, owned.value);
      assert items[FindIndex(items, key, ALIVE_OR_TO_BE_ADDED).value] in items;
    }
  }

  /** Without a twin, or where several are wanted, the instance is appended and no item changes. */
  lemma AddAppends(reg: Registry, target: EntityId, m: ModifierState, stacking: Stacking, key: MatchKey)
    requires m.name == key.name
    requires Accepted(stacking, key)
    requires stacking == Multiple || NoTwin(reg, target, stacking, key)
    ensures
      var (reg', r) := TryAdd(reg, target, m, stacking, key.stackingFlag, key.caster, key.provider);
      var n := SizeOf(reg, target);
      && r.Ok? && TailGains(reg, reg', target, m, key, r.value.modifier)
      && r.value == Lifecycle(if NoTwin(reg, target, stacking, key) then Appended else DuplicateAppended,
                              r.value.modifier, n, n + 1, None)
  {
    hide MatchSearch, FindIndex, FindOwner, SearchTargets, NewInstance, NoTwin, FirstTwin, TailGains, ReplaceByRef, GivesWay;
    AddRefusedIff(reg, target, m, stacking, key);
    SearchMeaning(reg, target, stacking, key);
    AppendMeaning(reg, target, m, key);
    var owned := FindOwner(reg, SearchTargets(reg, target, stacking), key);
    if owned.Some? {
      var i := FindIndex(ItemsOf(reg, owned.value), key, ALIVE_OR_TO_BE_ADDED).value;
      TwinOrNot(reg, target, stacking, key, owned.value, i);
    }
  }

  /** The latest is retained at the cost of the twin: of any with RetainGlobalLatest, and with the
      unique form of one that the target did not cast. */
  ghost predicate TwinGoes(twin: ModifierState, target: EntityId, stacking: Stacking) {
    stacking == RetainGlobalLatest || (stacking == RetainGlobalLatestUnique && twin.caster != Some(target))
  }

  /** Then the twin is marked and the instance appended.  The mark goes to the first item named as
      the twin, which in an ordered registry is the twin. */
  lemma AddReplacesTwin(reg: Registry, target: EntityId, m: ModifierState, stacking: Stacking, key: MatchKey,
                        owner: EntityId, i: nat)
    returns (j: nat, marked: Registry)
    requires m.name == key.name
    requires FirstTwin(reg, target, stacking, key, owner, i) && TwinGoes(reg[owner][i], target, stacking)
    ensures
      var twin, (reg', r) := reg[owner][i], TryAdd(reg, target, m, stacking, key.stackingFlag, key.caster, key.provider);
      var n := SizeOf(reg, target);
      && FirstNamed(reg, owner, twin.Ref(), j) && (Ordered(reg) ==> j == i)
      && marked == reg[owner := reg[owner][j := reg[owner][j].(stateRaw := if reg[owner][j].stateRaw > 2 then reg[owner][j].stateRaw else 2)]]
      && r.Ok? && TailGains(marked, reg', target, m, key, r.value.modifier)
      && r.value == Lifecycle(DestroyedAndAppended, r.value.modifier, n, n + 1, Some(ModifierRef(twin.name, twin.owner, twin.ordinal)))
  {
    hide MatchSearch, FindIndex, FindOwner, SearchTargets, NewInstance, NoTwin, TailGains, ReplaceByRef, FirstNamed, Ordered;
    var twin := reg[owner][i];
    TwinSearched(reg, target, stacking, key, owner, i);
    j := DestroyMeaning(reg, owner, twin.Ref());
    TwinNamed(reg, owner, i, j);
    marked := Destroy(reg, owner, twin.Ref()).value.0;
    AppendMeaning(marked, target, m, key);
  }

  lemma TwinSearched(reg: Registry, target: EntityId, stacking: Stacking, key: MatchKey, owner: EntityId, i: nat)
    requires FirstTwin(reg, target, stacking, key, owner, i)
    ensures FindOwner(reg, SearchTargets(reg, target, stacking), key) == Some(owner)
    ensures FindIndex(ItemsOf(reg, owner), key, ALIVE_OR_TO_BE_ADDED) == Some(i)
  {
    hide MatchSearch, FindIndex, FindOwner, SearchTargets, NoTwin, FirstTwin;
    SearchMeaning(reg, target, stacking, key);
    TwinOrNot(reg, target, stacking, key, owner, i);
  }

  lemma TwinNamed(reg: Registry, e: EntityId, i: nat, j: nat)
    requires e in reg && i < |reg[e]|
    ensures exists k: nat :: FirstNamed(reg, e, reg[e][i].Ref(), k)
    ensures Ordered(reg) && FirstNamed(reg, e, reg[e][i].Ref(), j) ==> j == i
  {
    var ref := reg[e][i].Ref();
    var k := IndexOf(reg[e], ref);
    assert reg[e][i] in reg[e];
    assert FirstNamed(reg, e, ref, k.value);
    if Ordered(reg) {
      assert Increasing(reg[e]);
    }
  }

  /** A twin that stays takes the hit itself, unless it is still to be added: then nothing changes. */
  lemma AddHitsTwin(reg: Registry, target: EntityId, m: ModifierState, stacking: Stacking, key: MatchKey,
                    owner: EntityId, i: nat)
    returns (j: nat)
    requires m.name == key.name && stacking != Multiple
    requires Accepted(stacking, key)
    requires FirstTwin(reg, target, stacking, key, owner, i) && !TwinGoes(reg[owner][i], target, stacking)
    ensures
      var twin, (reg', r) := reg[owner][i], TryAdd(reg, target, m, stacking, key.stackingFlag, key.caster, key.provider);
      var n := SizeOf(reg, target);
      r.Ok? &&
      if twin.stateRaw == 0 then
        reg' == reg && r.value == Lifecycle(DelayedExisting, twin, n, n, None)
      else
        && FirstNamed(reg, owner, twin.Ref(), j) && (Ordered(reg) ==> j == i)
        && var updated := ReddAll(reg[owner][j], stacking, [m.count], [m.currentLife]);
        && reg' == reg[owner := reg[owner][j := updated]]
        && r.value == Lifecycle(ExistingProcessed, updated, n, n, None)
  {
    hide MatchSearch, FindIndex, FindOwner, SearchTargets, NewInstance, NoTwin, FirstNamed, Ordered, ProcessRedd, Destroy, ReddAll;
    AddRefusedIff(reg, target, m, stacking, key);
    var twin := reg[owner][i];
    TwinSearched(reg, target, stacking, key, owner, i);
    j := ReddMeaning(reg, owner, twin.Ref(), stacking, m.count, m.currentLife);
    TwinNamed(reg, owner, i, j);
  }
}

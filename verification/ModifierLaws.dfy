/** Laws of the modifier lists over every run of additions, destructions, refreshes and sweeps. */
module ModifierLaws {
  import opened Wrappers
  import opened BattleStates
  import opened ModifierRuntime

  datatype Step =
    | AddStep(target: EntityId, m: ModifierState, stacking: Stacking, flag: int, caster: Option<EntityId>, provider: Option<int>)
    | ApplyStep(target: EntityId, m: ModifierState)
    | DestroyStep(target: EntityId, ref: ModifierRef)
    | ReddStep(target: EntityId, ref: ModifierRef, stacking: Stacking, newCount: nat, newLife: int)
    | SweepStep(target: EntityId)

  /** A refused operation leaves the registry as it is. */
  function Apply(reg: Registry, step: Step): Registry {
    match step
    case AddStep(target, m, stacking, flag, caster, provider) => TryAdd(reg, target, m, stacking, flag, caster, provider).0
    case ApplyStep(target, m) => ApplyInstance(reg, target, m)
    case DestroyStep(target, ref) => (match Destroy(reg, target, ref) case Ok((reg', _)) => reg' case Err(_) => reg)
    case ReddStep(target, ref, stacking, newCount, newLife) =>
      (match ProcessRedd(reg, target, ref, stacking, newCount, newLife) case Ok((reg', _)) => reg' case Err(_) => reg)
    case SweepStep(target) => Sweep(reg, target)
  }

  function Run(reg: Registry, steps: seq<Step>): Registry
    decreases |steps|
  {
    if steps == [] then reg else Run(Apply(reg, steps[0]), steps[1..])
  }

  // -------------------------------------------------------------------------
  // Identity
  // -------------------------------------------------------------------------

  ghost predicate Increasing(items: seq<ModifierState>) {
    forall i, j :: 0 <= i < j < |items| ==> items[i].ordinal < items[j].ordinal
  }

  ghost predicate OwnedBy(items: seq<ModifierState>, e: EntityId) {
    forall m :: m in items ==> m.owner == e
  }

  /** In every list ordinals strictly increase and everybody is owned by the list's entity. */
  ghost predicate Ordered(reg: Registry) {
    forall e :: e in reg ==> Increasing(reg[e]) && OwnedBy(reg[e], e)
  }

  /** The sweep keeps exactly the items to keep, whatever their ordinals are. */
  lemma {:induction false} KeptIsFilter(items: seq<ModifierState>)
    ensures forall m :: m in Kept(items) <==> m in items && (m.stateRaw == 1 || m.destroyGuard > 0)
  {
    if items != [] {
      var n := |items| - 1;
      KeptIsFilter(items[..n]);
      assert items == items[..n] + [items[n]];
    }
  }

  /** It looks at each item by itself and moves none: it commutes with concatenation. */
  lemma {:induction false} KeptOfConcat(a: seq<ModifierState>, b: seq<ModifierState>)
    ensures Kept(a + b) == Kept(a) + Kept(b)
    decreases |b|
  {
    if b == [] {
      assert a + b == a;
    } else {
      var n := |b| - 1;
      assert (a + b)[..|a| + n] == a + b[..n];
      KeptOfConcat(a, b[..n]);
    }
  }

  /** So it keeps increasing ordinals increasing. */
  lemma {:induction false} KeptIsSubsequence(items: seq<ModifierState>)
    ensures forall m :: m in Kept(items) <==> m in items && (m.stateRaw == 1 || m.destroyGuard > 0)
    ensures Increasing(items) ==> Increasing(Kept(items))
  {
    hide Keeps;
    KeptIsFilter(items);
    if items != [] && Increasing(items) {
      var n := |items| - 1;
      KeptIsSubsequence(items[..n]);
      KeptIsFilter(items[..n]);
      forall m | m in Kept(items[..n])
        ensures m.ordinal < items[n].ordinal
      {
        var i :| 0 <= i < n && items[..n][i] == m;
      }
      AppendIncreasing(Kept(items[..n]), items[n]);
    }
  }

  lemma AppendIncreasing(items: seq<ModifierState>, m: ModifierState)
    requires Increasing(items) && forall x :: x in items ==> x.ordinal < m.ordinal
    ensures Increasing(items + [m])
  {
    assert forall i :: 0 <= i < |items| ==> items[i] in items;
  }

  lemma AppendKeepsOrder(reg: Registry, target: EntityId, m: ModifierState)
    requires Ordered(reg) && m.owner == target && m.ordinal == NextOrdinal(ItemsOf(reg, target))
    ensures Ordered(reg[target := ItemsOf(reg, target) + [m]])
  {
    var items := ItemsOf(reg, target);
    assert Increasing(items) && OwnedBy(items, target);
    forall i | 0 <= i < |items|
      ensures items[i].ordinal < m.ordinal
    {
      assert items[i] in items;
    }
  }

  lemma ReplaceKeepsOrder(reg: Registry, target: EntityId, ref: ModifierRef, change: ModifierState -> ModifierState)
    requires Ordered(reg) && forall m :: change(m).Ref() == m.Ref()
    ensures match ReplaceByRef(reg, target, ref, change)
      case Ok((reg', _)) => Ordered(reg')
      case Err(_) => true
  {
    var items := ItemsOf(reg, target);
    match IndexOf(items, ref)
    case None =>
    case Some(i) =>
      assert change(items[i]).Ref() == items[i].Ref();
  }

  lemma ChangesKeepRefs()
    ensures forall m: ModifierState :: Destroyed(m).Ref() == m.Ref()
    ensures forall m: ModifierState, stacking, newCount, newLife :: Redd(m, stacking, newCount, newLife).Ref() == m.Ref()
  {
  }

  /** The four shapes an addition's outcome can take. */
  lemma TryAddShape(reg: Registry, target: EntityId, m: ModifierState, stacking: Stacking, flag: int,
                    caster: Option<EntityId>, provider: Option<int>)
    returns (owner: EntityId, existing: ModifierState)
    ensures
      var reg' := TryAdd(reg, target, m, stacking, flag, caster, provider).0;
      var key := MatchKey(m.name, flag, caster, provider);
      var match0 := FindOwner(reg, SearchTargets(reg, target, stacking), key);
      || reg' == reg
      || (reg' == AppendNew(reg, target, m, key).0 && (stacking == Multiple || match0.None?))
      || (&& match0 == Some(owner) && stacking != Multiple && existing in ItemsOf(reg, owner)
          && MatchSearch(existing, key, ALIVE_OR_TO_BE_ADDED)
          && if GivesWay(existing, target, stacking)
             then
               && Destroy(reg, owner, existing.Ref()).Ok?
               && reg' == AppendNew(Destroy(reg, owner, existing.Ref()).value.0, target, m, key).0
             else
               var redd := ProcessRedd(reg, owner, existing.Ref(), stacking, m.count, m.currentLife);
               redd.Ok? && reg' == redd.value.0)
  {
    hide Redd, MatchSearch, Destroy, ProcessRedd, AppendNew, FindOwner, FindIndex, SearchTargets, GivesWay;
    owner, existing := target, m;
    var key := MatchKey(m.name, flag, caster, provider);
    var found := FindOwner(reg, SearchTargets(reg, target, stacking), key);
    if found.Some? {
      owner := found.value;
      existing := ItemsOf(reg, owner)[FindIndex(ItemsOf(reg, owner), key, ALIVE_OR_TO_BE_ADDED).value];
    }
  }

  lemma TryAddKeepsOrder(reg: Registry, target: EntityId, m: ModifierState, stacking: Stacking, flag: int,
                         caster: Option<EntityId>, provider: Option<int>)
    requires Ordered(reg)
    ensures Ordered(TryAdd(reg, target, m, stacking, flag, caster, provider).0)
  {
    hide Ordered, TryAdd, Redd, MatchSearch, FindOwner, ReplaceByRef;
    var key := MatchKey(m.name, flag, caster, provider);
    var owner, existing := TryAddShape(reg, target, m, stacking, flag, caster, provider);
    ChangesKeepRefs();
    AppendKeepsOrder(reg, target, NewInstance(ItemsOf(reg, target), target, m, key));
    ReplaceKeepsOrder(reg, owner, existing.Ref(), Destroyed);
    ReplaceKeepsOrder(reg, owner, existing.Ref(), e => Redd(e, stacking, m.count, m.currentLife));
    if Destroy(reg, owner, existing.Ref()).Ok? {
      var reg1 := Destroy(reg, owner, existing.Ref()).value.0;
      AppendKeepsOrder(reg1, target, NewInstance(ItemsOf(reg1, target), target, m, key));
    }
  }

  lemma ApplyKeepsOrder(reg: Registry, step: Step)
    requires Ordered(reg)
    ensures Ordered(Apply(reg, step))
  {
    hide Redd, TryAdd;
    match step
    case AddStep(target, m, stacking, flag, caster, provider) =>
      TryAddKeepsOrder(reg, target, m, stacking, flag, caster, provider);
    case ApplyStep(target, m) =>
      AppendKeepsOrder(reg, target, m.(owner := target, ordinal := NextOrdinal(ItemsOf(reg, target))));
    case DestroyStep(target, ref) =>
      ChangesKeepRefs();
      ReplaceKeepsOrder(reg, target, ref, Destroyed);
    case ReddStep(target, ref, stacking, newCount, newLife) =>
      ChangesKeepRefs();
      ReplaceKeepsOrder(reg, target, ref, m => Redd(m, stacking, newCount, newLife));
    case SweepStep(target) =>
      assert Increasing(ItemsOf(reg, target)) && OwnedBy(ItemsOf(reg, target), target);
      KeptIsSubsequence(ItemsOf(reg, target));
  }

  /** Along any run, whatever is stacked how, ordinals strictly increase in every list. */
  lemma {:induction false} RunKeepsOrder(reg: Registry, steps: seq<Step>)
    requires Ordered(reg)
    ensures Ordered(Run(reg, steps))
    decreases |steps|
  {
    hide Ordered, Apply;
    if steps != [] {
      ApplyKeepsOrder(reg, steps[0]);
      RunKeepsOrder(Apply(reg, steps[0]), steps[1..]);
    }
  }

  /** So a search by reference finds the very instance the reference was taken from. */
  lemma RefFindsTheInstance(items: seq<ModifierState>, i: nat)
    requires Increasing(items) && i < |items|
    ensures IndexOf(items, items[i].Ref()) == Some(i)
  {
    assert items[i] in items;
  }

  /** The next ordinal of a sorted list is one past its last. */
  lemma NextAfterLast(items: seq<ModifierState>)
    requires Increasing(items) && items != []
    ensures NextOrdinal(items) == items[|items| - 1].ordinal + 1
  {
    var n := |items| - 1;
    if n > 0 {
      NextAfterLast(items[..n]);
    }
  }

  lemma LastIsGreatest(items: seq<ModifierState>, m: ModifierState)
    requires Increasing(items) && m in items
    ensures m.ordinal <= items[|items| - 1].ordinal
    ensures m != items[|items| - 1] ==> m.ordinal < items[|items| - 1].ordinal
  {
  }

  lemma {:induction false} TailStays(items: seq<ModifierState>)
    requires items != [] && Keeps(items[|items| - 1])
    ensures Kept(items) != [] && Kept(items)[|Kept(items)| - 1] == items[|items| - 1]
  {
  }

  /** A sweep does not free ordinals for reuse exactly when it keeps the tail of the list: removing
      the tail makes its ordinal, or a lower one, the next to be given out. */
  lemma OrdinalsFreshIffTailKept(items: seq<ModifierState>)
    requires Increasing(items) && items != []
    ensures
      (forall m :: m in items ==> m.ordinal < NextOrdinal(Kept(items))) <==>
      var last := items[|items| - 1];
      last.stateRaw == 1 || last.destroyGuard > 0
  {
    hide Kept, Increasing, NextOrdinal;
    var last, kept := items[|items| - 1], Kept(items);
    KeptIsSubsequence(items);
    if kept != [] {
      NextAfterLast(kept);
    }
    if Keeps(last) {
      TailStays(items);
      forall m | m in items
        ensures m.ordinal <= last.ordinal
      {
        LastIsGreatest(items, m);
      }
    } else {
      assert last in items;
      if kept != [] {
        assert kept[|kept| - 1] in kept;
        LastIsGreatest(items, kept[|kept| - 1]);
      }
    }
  }

  /** The sweep keeps its own result. */
  lemma {:induction false} KeptIsIdempotent(items: seq<ModifierState>)
    ensures Kept(Kept(items)) == Kept(items)
  {
    if items != [] {
      var n := |items| - 1;
      KeptIsIdempotent(items[..n]);
      var kept := Kept(items[..n]);
      assert Kept(items) == if Keeps(items[n]) then kept + [items[n]] else kept;
      if Keeps(items[n]) {
        assert (kept + [items[n]])[..|kept|] == kept;
        assert Kept(kept + [items[n]]) == Kept(kept) + [items[n]];
      }
    }
  }

  // -------------------------------------------------------------------------
  // Uniqueness of live matches
  // -------------------------------------------------------------------------

  /** m is in the list of e and a search that skips the dying finds it. */
  ghost predicate LiveIn(reg: Registry, key: MatchKey, e: EntityId, m: ModifierState) {
    m in ItemsOf(reg, e) && MatchSearch(m, key, ALIVE_OR_TO_BE_ADDED)
  }

  ghost predicate OnePerEntity(reg: Registry, key: MatchKey) {
    forall e, m, n :: LiveIn(reg, key, e, m) && LiveIn(reg, key, e, n) ==> m.ordinal == n.ordinal
  }

  ghost predicate OneGlobally(reg: Registry, key: MatchKey) {
    forall e, f, m, n :: LiveIn(reg, key, e, m) && LiveIn(reg, key, f, n) ==> e == f && m.ordinal == n.ordinal
  }

  /** Every live match of the later registry was one already, in the same place. */
  ghost predicate NoneAppears(reg: Registry, later: Registry, key: MatchKey) {
    forall e, m :: LiveIn(later, key, e, m) ==> exists n :: LiveIn(reg, key, e, n) && n.ordinal == m.ordinal
  }

  lemma NoneAppearsKeeps(reg: Registry, later: Registry, key: MatchKey)
    requires NoneAppears(reg, later, key)
    ensures OnePerEntity(reg, key) ==> OnePerEntity(later, key)
    ensures OneGlobally(reg, key) ==> OneGlobally(later, key)
  {
  }

  /** A change that creates no match. */
  ghost predicate Harmless(change: ModifierState -> ModifierState, key: MatchKey) {
    forall m :: && change(m).ordinal == m.ordinal
                && (MatchSearch(change(m), key, ALIVE_OR_TO_BE_ADDED) ==> MatchSearch(m, key, ALIVE_OR_TO_BE_ADDED))
  }

  lemma ReplaceMakesNoMatch(reg: Registry, target: EntityId, ref: ModifierRef, change: ModifierState -> ModifierState,
                            key: MatchKey)
    requires Harmless(change, key)
    ensures match ReplaceByRef(reg, target, ref, change)
      case Ok((reg', _)) => NoneAppears(reg, reg', key)
      case Err(_) => true
  {
    hide MatchSearch;
    var items := ItemsOf(reg, target);
    match IndexOf(items, ref)
    case None =>
    case Some(i) =>
      var later := reg[target := items[i := change(items[i])]];
      forall e, m | LiveIn(later, key, e, m)
        ensures exists n :: LiveIn(reg, key, e, n) && n.ordinal == m.ordinal
      {
        if e == target && m == change(items[i]) {
          assert LiveIn(reg, key, e, items[i]);
        } else {
          assert LiveIn(reg, key, e, m);
        }
      }
  }

  lemma DestroyIsHarmless(key: MatchKey)
    ensures Harmless(Destroyed, key)
  {
  }

  lemma ReddIsHarmless(stacking: Stacking, newCount: nat, newLife: int, key: MatchKey)
    ensures Harmless(m => Redd(m, stacking, newCount, newLife), key)
  {
  }

  lemma SweepMakesNoMatch(reg: Registry, target: EntityId, key: MatchKey)
    requires Ordered(reg)
    ensures NoneAppears(reg, Sweep(reg, target), key)
  {
    hide MatchSearch;
    KeptIsSubsequence(ItemsOf(reg, target));
    forall e, m | LiveIn(Sweep(reg, target), key, e, m)
      ensures exists n :: LiveIn(reg, key, e, n) && n.ordinal == m.ordinal
    {
      assert LiveIn(reg, key, e, m);
    }
  }

  /** An append makes at most one match, and none when the name differs. */
  lemma AppendMakesOneMatch(reg: Registry, target: EntityId, m: ModifierState, key: MatchKey)
    ensures
      var later := reg[target := ItemsOf(reg, target) + [m]];
      && (m.name != key.name ==> NoneAppears(reg, later, key))
      && forall e, n :: LiveIn(later, key, e, n) ==> LiveIn(reg, key, e, n) || (e == target && n == m)
  {
    var later := reg[target := ItemsOf(reg, target) + [m]];
    forall e, n | LiveIn(later, key, e, n)
      ensures LiveIn(reg, key, e, n) || (e == target && n == m)
    {
    }
  }

  /** Searching a list of entities and finding nobody means none of them has a match. */
  lemma NobodyFound(reg: Registry, owners: seq<EntityId>, key: MatchKey, e: EntityId, m: ModifierState)
    requires FindOwner(reg, owners, key).None? && e in owners
    ensures !LiveIn(reg, key, e, m)
  {
  }

  /** Destroying the only match by its reference leaves none. */
  lemma DestroyTheOnlyMatch(reg: Registry, owner: EntityId, existing: ModifierState, key: MatchKey)
    requires Ordered(reg) && OneGlobally(reg, key) && LiveIn(reg, key, owner, existing)
    requires Destroy(reg, owner, existing.Ref()).Ok?
    ensures forall e, m :: !LiveIn(Destroy(reg, owner, existing.Ref()).value.0, key, e, m)
  {
    var items := reg[owner];
    var i :| 0 <= i < |items| && items[i] == existing;
    assert Increasing(items);
    RefFindsTheInstance(items, i);
    var later := reg[owner := items[i := Destroyed(existing)]];
    forall e, m | LiveIn(later, key, e, m)
      ensures false
    {
      if e == owner {
        var j :| 0 <= j < |items| && items[i := Destroyed(existing)][j] == m;
        assert j != i;
        assert LiveIn(reg, key, e, items[j]);
      } else {
        assert LiveIn(reg, key, e, m);
      }
    }
  }

  /** The runs of the per-entity law: every addition of the key's name uses the key and stacks in
      place, and the bare append leaf is not used for that name. */
  ghost predicate StacksInPlace(step: Step, key: MatchKey) {
    match step
    case AddStep(_, m, stacking, flag, caster, provider) =>
      m.name == key.name ==> MatchKey(m.name, flag, caster, provider) == key && stacking != Multiple && !IsGlobal(stacking)
    case ApplyStep(_, m) => m.name != key.name
    case _ => true
  }

  /** The runs of the global law: every addition of the key's name uses the key and retains the
      latest instance of the whole battle. */
  ghost predicate RetainsLatest(step: Step, key: MatchKey) {
    match step
    case AddStep(_, m, stacking, flag, caster, provider) =>
      m.name == key.name ==> MatchKey(m.name, flag, caster, provider) == key && IsGlobal(stacking)
    case ApplyStep(_, m) => m.name != key.name
    case _ => true
  }

  lemma AddOtherName(reg: Registry, step: Step, key: MatchKey)
    requires step.AddStep? && step.m.name != key.name
    ensures NoneAppears(reg, Apply(reg, step), key)
  {
    hide TryAdd, Redd, MatchSearch, FindOwner, ReplaceByRef;
    var AddStep(target, m, stacking, flag, caster, provider) := step;
    var owner, existing := TryAddShape(reg, target, m, stacking, flag, caster, provider);
    var own := MatchKey(m.name, flag, caster, provider);
    AppendMakesOneMatch(reg, target, NewInstance(ItemsOf(reg, target), target, m, own), key);
    DestroyIsHarmless(key);
    ReddIsHarmless(stacking, m.count, m.currentLife, key);
    ReplaceMakesNoMatch(reg, owner, existing.Ref(), Destroyed, key);
    ReplaceMakesNoMatch(reg, owner, existing.Ref(), e => Redd(e, stacking, m.count, m.currentLife), key);
    if Destroy(reg, owner, existing.Ref()).Ok? {
      var reg1 := Destroy(reg, owner, existing.Ref()).value.0;
      AppendMakesOneMatch(reg1, target, NewInstance(ItemsOf(reg1, target), target, m, own), key);
    }
  }

  lemma OtherStepsMakeNoMatch(reg: Registry, step: Step, key: MatchKey)
    requires Ordered(reg)
    requires match step case AddStep(_, m, _, _, _, _) => m.name != key.name case ApplyStep(_, m) => m.name != key.name case _ => true
    ensures NoneAppears(reg, Apply(reg, step), key)
  {
    hide Redd, TryAdd, MatchSearch, Ordered;
    match step
    case AddStep(_, _, _, _, _, _) =>
      AddOtherName(reg, step, key);
    case ApplyStep(target, m) =>
      AppendMakesOneMatch(reg, target, m.(owner := target, ordinal := NextOrdinal(ItemsOf(reg, target))), key);
    case DestroyStep(target, ref) =>
      DestroyIsHarmless(key);
      ReplaceMakesNoMatch(reg, target, ref, Destroyed, key);
    case ReddStep(target, ref, stacking, newCount, newLife) =>
      ReddIsHarmless(stacking, newCount, newLife, key);
      ReplaceMakesNoMatch(reg, target, ref, m => Redd(m, stacking, newCount, newLife), key);
    case SweepStep(target) =>
      SweepMakesNoMatch(reg, target, key);
  }

  lemma AddInPlace(reg: Registry, step: Step, key: MatchKey)
    requires step.AddStep? && step.m.name == key.name && StacksInPlace(step, key)
    requires OnePerEntity(reg, key)
    ensures OnePerEntity(Apply(reg, step), key)
  {
    hide TryAdd, Redd, MatchSearch, FindOwner, ReplaceByRef;
    var AddStep(target, m, stacking, flag, caster, provider) := step;
    var owner, existing := TryAddShape(reg, target, m, stacking, flag, caster, provider);
    ReddIsHarmless(stacking, m.count, m.currentLife, key);
    ReplaceMakesNoMatch(reg, owner, existing.Ref(), e => Redd(e, stacking, m.count, m.currentLife), key);
    AppendMakesOneMatch(reg, target, NewInstance(ItemsOf(reg, target), target, m, key), key);
    if FindOwner(reg, [target], key).None? {
      forall n
        ensures !LiveIn(reg, key, target, n)
      {
        NobodyFound(reg, [target], key, target, n);
      }
    }
  }

  lemma FirstMatchAppended(reg: Registry, target: EntityId, m: ModifierState, key: MatchKey)
    requires forall e, n :: !LiveIn(reg, key, e, n)
    ensures OneGlobally(reg[target := ItemsOf(reg, target) + [m]], key)
  {
    AppendMakesOneMatch(reg, target, m, key);
  }

  lemma AddRetainingLatest(reg: Registry, step: Step, key: MatchKey)
    requires step.AddStep? && step.m.name == key.name && RetainsLatest(step, key)
    requires Ordered(reg) && OneGlobally(reg, key)
    ensures OneGlobally(Apply(reg, step), key)
  {
    hide TryAdd, Redd, MatchSearch, FindOwner, ReplaceByRef, OneGlobally, NoneAppears, Ordered;
    var AddStep(target, m, stacking, flag, caster, provider) := step;
    var owner, existing := TryAddShape(reg, target, m, stacking, flag, caster, provider);
    if FindOwner(reg, Ascending(reg.Keys), key).None? {
      forall e, n
        ensures !LiveIn(reg, key, e, n)
      {
        if e in reg {
          NobodyFound(reg, Ascending(reg.Keys), key, e, n);
        }
      }
      FirstMatchAppended(reg, target, NewInstance(ItemsOf(reg, target), target, m, key), key);
    } else if Apply(reg, step) != reg {
      if GivesWay(existing, target, stacking) {
        DestroyTheOnlyMatch(reg, owner, existing, key);
        var reg1 := Destroy(reg, owner, existing.Ref()).value.0;
        FirstMatchAppended(reg1, target, NewInstance(ItemsOf(reg1, target), target, m, key), key);
      } else {
        ReddIsHarmless(stacking, m.count, m.currentLife, key);
        ReplaceMakesNoMatch(reg, owner, existing.Ref(), e => Redd(e, stacking, m.count, m.currentLife), key);
        NoneAppearsKeeps(reg, Apply(reg, step), key);
      }
    }
  }

  /** With one fixed match key per name and in-place stacking, no entity ever holds two live
      matches, however additions, destructions, refreshes and sweeps interleave. */
  lemma {:induction false} RunKeepsOnePerEntity(reg: Registry, steps: seq<Step>, key: MatchKey)
    requires Ordered(reg) && OnePerEntity(reg, key)
    requires forall step :: step in steps ==> StacksInPlace(step, key)
    ensures OnePerEntity(Run(reg, steps), key)
    decreases |steps|
  {
    hide Ordered, OnePerEntity, Apply, NoneAppears;
    if steps != [] {
      var step := steps[0];
      var later := Apply(reg, step);
      if step.AddStep? && step.m.name == key.name {
        AddInPlace(reg, step, key);
      } else {
        OtherStepsMakeNoMatch(reg, step, key);
        NoneAppearsKeeps(reg, later, key);
      }
      ApplyKeepsOrder(reg, step);
      RunKeepsOnePerEntity(later, steps[1..], key);
    }
  }

  /** With global retention of the latest, no two entities of the battle hold a live match. */
  lemma {:induction false} RunKeepsOneGlobally(reg: Registry, steps: seq<Step>, key: MatchKey)
    requires Ordered(reg) && OneGlobally(reg, key)
    requires forall step :: step in steps ==> RetainsLatest(step, key)
    ensures OneGlobally(Run(reg, steps), key)
    decreases |steps|
  {
    hide Ordered, OneGlobally, Apply, NoneAppears;
    if steps != [] {
      var step := steps[0];
      var later := Apply(reg, step);
      if step.AddStep? && step.m.name == key.name {
        AddRetainingLatest(reg, step, key);
      } else {
        OtherStepsMakeNoMatch(reg, step, key);
        NoneAppearsKeeps(reg, later, key);
      }
      ApplyKeepsOrder(reg, step);
      RunKeepsOneGlobally(later, steps[1..], key);
    }
  }

  /** Read as positions: from an empty registry, two live matches of one entity are the same place
      of the same list; under global retention so are any two of the battle. */
  lemma LiveMatchesAreUnique(steps: seq<Step>, key: MatchKey, e: EntityId, f: EntityId, i: nat, j: nat)
    requires i < |ItemsOf(Run(map[], steps), e)| && j < |ItemsOf(Run(map[], steps), f)|
    requires MatchSearch(ItemsOf(Run(map[], steps), e)[i], key, ALIVE_OR_TO_BE_ADDED)
    requires MatchSearch(ItemsOf(Run(map[], steps), f)[j], key, ALIVE_OR_TO_BE_ADDED)
    ensures (forall step :: step in steps ==> StacksInPlace(step, key)) && e == f ==> i == j
    ensures (forall step :: step in steps ==> RetainsLatest(step, key)) ==> e == f && i == j
  {
    hide StacksInPlace, RetainsLatest, MatchSearch;
    var reg := Run(map[], steps);
    RunKeepsOrder(map[], steps);
    var m, n := ItemsOf(reg, e)[i], ItemsOf(reg, f)[j];
    assert LiveIn(reg, key, e, m) && LiveIn(reg, key, f, n);
    assert e == f && m.ordinal == n.ordinal ==> i == j by {
      assert Increasing(reg[e]);
    }
    if forall step :: step in steps ==> StacksInPlace(step, key) {
      RunKeepsOnePerEntity(map[], steps, key);
    }
    if forall step :: step in steps ==> RetainsLatest(step, key) {
      RunKeepsOneGlobally(map[], steps, key);
    }
  }

  // -------------------------------------------------------------------------
  // Lifetime of an instance that is hit again and again
  // -------------------------------------------------------------------------

  const UNLIMITED: int := -1

  /** An instance after a run of hits with these counts and lives. */
  function ReddAll(m: ModifierState, stacking: Stacking, counts: seq<nat>, lives: seq<int>): ModifierState
    requires |counts| == |lives|
  {
    if lives == [] then m
    else
      var n := |lives| - 1;
      Redd(ReddAll(m, stacking, counts[..n], lives[..n]), stacking, counts[n], lives[n])
  }

  function SumOf(lives: seq<int>): int {
    if lives == [] then 0 else SumOf(lives[..|lives| - 1]) + lives[|lives| - 1]
  }

  function Longest(life: int, lives: seq<int>): (r: int)
    ensures r in [life] + lives && forall x :: x in [life] + lives ==> x <= r
  {
    if lives == [] then life
    else
      var n := |lives| - 1;
      var longest := Longest(life, lives[..n]);
      Members([life] + lives, [life] + lives[..n], lives[n]);
      if longest >= lives[n] then longest else lives[n]
  }

  lemma Members(lives: seq<int>, init: seq<int>, last: int)
    requires lives == init + [last]
    ensures forall x :: x in init ==> x in lives
    ensures forall x :: x in lives ==> x in init || x == last
    ensures last in lives
  {
    assert lives[|init|] == last;
    forall x | x in init
      ensures x in lives
    {
      var i :| 0 <= i < |init| && init[i] == x;
      assert lives[i] == x;
    }
  }

  /** A life the instance goes through before the last hit is the number that means unlimited. */
  ghost predicate SumsToUnlimited(m: ModifierState, lives: seq<int>) {
    exists j :: 0 < j < |lives| && m.currentLife + SumOf(lives[..j]) == UNLIMITED
  }

  ghost predicate LongestIsUnlimited(m: ModifierState, lives: seq<int>) {
    exists j :: 0 < j < |lives| && Longest(m.currentLife, lives[..j]) == UNLIMITED
  }

  /** A prolonged instance lives for the sum of all the lives it was given.  It is unlimited for good
      once it was unlimited before, or was given an unlimited life, or its running sum happens to be
      the number that means unlimited. */
  lemma {:induction false} ProlongedLife(m: ModifierState, counts: seq<nat>, lives: seq<int>)
    requires lives != [] && |counts| == |lives|
    ensures
      var after := ReddAll(m, Prolong, counts, lives);
      && after.previousLife == after.currentLife && after.count == m.count
      && after.currentLife == if m.previousLife == UNLIMITED || UNLIMITED in lives || SumsToUnlimited(m, lives)
                              then UNLIMITED else m.currentLife + SumOf(lives)
  {
    var n := |lives| - 1;
    var init := lives[..n];
    Members(lives, init, lives[n]);
    if n > 0 {
      ProlongedLife(m, counts[..n], init);
      assert SumsToUnlimited(m, lives) <==> SumsToUnlimited(m, init) || m.currentLife + SumOf(init) == UNLIMITED by {
        forall j | 0 < j < n
          ensures init[..j] == lives[..j]
        {
        }
      }
    }
  }

  /** A merged instance lives for the longest of them, with the same rule. */
  lemma {:induction false} MergedLife(m: ModifierState, counts: seq<nat>, lives: seq<int>)
    requires lives != [] && |counts| == |lives|
    ensures
      var after := ReddAll(m, Merge, counts, lives);
      && after.previousLife == after.currentLife && after.count == m.count
      && after.currentLife == if m.previousLife == UNLIMITED || UNLIMITED in lives || LongestIsUnlimited(m, lives)
                              then UNLIMITED else Longest(m.currentLife, lives)
  {
    var n := |lives| - 1;
    var init := lives[..n];
    Members(lives, init, lives[n]);
    if n > 0 {
      MergedLife(m, counts[..n], init);
      assert LongestIsUnlimited(m, lives) <==> LongestIsUnlimited(m, init) || Longest(m.currentLife, init) == UNLIMITED by {
        forall j | 0 < j < n
          ensures init[..j] == lives[..j]
        {
        }
      }
    }
  }

  /** Among ordinary lives, not negative unless unlimited, the coincidence never happens. */
  lemma OrdinaryLives(m: ModifierState, lives: seq<int>)
    requires m.currentLife >= 0 && forall x :: x in lives ==> x >= UNLIMITED
    ensures UNLIMITED !in lives ==> !SumsToUnlimited(m, lives)
    ensures !LongestIsUnlimited(m, lives)
  {
    forall j | 0 < j < |lives|
      ensures Longest(m.currentLife, lives[..j]) >= 0
      ensures UNLIMITED !in lives ==> SumOf(lives[..j]) >= 0
    {
      assert m.currentLife in [m.currentLife] + lives[..j] by {
        assert ([m.currentLife] + lives[..j])[0] == m.currentLife;
      }
      if UNLIMITED !in lives {
        NonNegativePrefix(lives, j);
      }
    }
  }

  lemma {:induction false} NonNegativePrefix(lives: seq<int>, j: nat)
    requires j <= |lives| && forall x :: x in lives ==> x >= 0
    ensures SumOf(lives[..j]) >= 0
    decreases j
  {
    if j > 0 {
      NonNegativePrefix(lives, j - 1);
      assert lives[..j][..j - 1] == lives[..j - 1];
      assert lives[j - 1] in lives;
    }
  }

  // -------------------------------------------------------------------------
  // State filters
  // -------------------------------------------------------------------------

  /** A filter looks at the state just when it is 0 or 1: any other lets every state through. */
  lemma FilterIgnoresStateIff(key: MatchKey, filter: int)
    ensures filter !in {0, 1} <==>
      forall m: ModifierState, x: int :: MatchSearch(m, key, filter) <==> MatchSearch(m.(stateRaw := x), key, filter)
  {
    var m := ModifierState(key.name, 0, 0, ALIVE, key.stackingFlag, 0, 0, 0, 0, None, key.caster, 0, false, 0, key.provider);
    assert MatchSearch(m, key, filter);
    assert filter in {0, 1} ==> !MatchSearch(m.(stateRaw := TO_BE_REMOVED), key, filter);
  }

  /** So under such a filter a modifier of any state matches exactly when it would match alive: the
      documented "matches nothing" holds just for names, flags, casters and providers that differ. */
  lemma OtherFiltersMatchAnyState(m: ModifierState, key: MatchKey, filter: int)
    requires filter !in {0, 1}
    ensures MatchSearch(m, key, filter) <==>
      && m.name == key.name && key.stackingFlag in {100, m.stackingFlag}
      && key.caster in {None, m.caster} && key.provider in {None, m.sourceProvider}
    ensures MatchSearch(m, key, filter) <==> MatchSearch(m.(stateRaw := 1), key, 1)
  {
  }
}

/** What one turn step does: the sort is the stable sort, the clamp never fires, time is conserved. */
module TurnLaws {
  import opened Wrappers
  import opened FixPoint
  import opened PropertyEntries
  import opened BattleStates
  import opened PropertyRuntime
  import opened TurnRuntime
  import opened SlotLaws
  import FixPointLaws

  type Entries = map<EntryKey, EntryRecord>

  // -------------------------------------------------------------------------
  // The action list is stably sorted
  // -------------------------------------------------------------------------

  /** The number an entity's remaining delay denotes. */
  function Due(entries: Entries, e: EntityId): int {
    Denote(Delay(entries, e))
  }

  ghost predicate Sorted(entries: Entries, t: seq<EntityId>) {
    forall i, j :: 0 <= i < j < |t| ==> Due(entries, t[i]) <= Due(entries, t[j])
  }

  ghost predicate ComesBefore(s: seq<EntityId>, x: EntityId, y: EntityId) {
    exists i, j :: 0 <= i < j < |s| && s[i] == x && s[j] == y
  }

  /** Ties keep the order they had in `s`. */
  ghost predicate KeepsTies(entries: Entries, s: seq<EntityId>, t: seq<EntityId>) {
    forall i, j :: 0 <= i < j < |t| && Due(entries, t[i]) == Due(entries, t[j]) ==> ComesBefore(s, t[i], t[j])
  }

  ghost predicate IsStableSort(entries: Entries, s: seq<EntityId>, t: seq<EntityId>) {
    multiset(t) == multiset(s) && Sorted(entries, t) && KeepsTies(entries, s, t)
  }

  function Splice(t: seq<EntityId>, k: nat, x: EntityId): seq<EntityId>
    requires k <= |t|
  {
    t[..k] + [x] + t[k..]
  }

  lemma SpliceFront(s: seq<EntityId>, x: EntityId)
    ensures Splice(s, 0, x) == [x] + s
  {
  }

  lemma SpliceCons(s: seq<EntityId>, k: nat, x: EntityId)
    requires s != [] && k < |s|
    ensures [s[0]] + Splice(s[1..], k, x) == Splice(s, k + 1, x)
  {
  }

  /** Insertion splices `x` in behind everything not slower than it. */
  lemma {:induction false} InsertSplices(entries: Entries, s: seq<EntityId>, x: EntityId) returns (k: nat)
    requires Sorted(entries, s)
    ensures k <= |s| && Insert(entries, s, x) == Splice(s, k, x)
    ensures forall i :: k <= i < |s| ==> Due(entries, x) < Due(entries, s[i])
    ensures forall i :: 0 <= i < k ==> Due(entries, s[i]) <= Due(entries, x)
  {
    hide Delay, Compare, Denote, Splice;
    if s == [] || Less(Delay(entries, x), Delay(entries, s[0])) {
      k := 0;
      SpliceFront(s, x);
    } else {
      var k' := InsertSplices(entries, s[1..], x);
      k := k' + 1;
      SpliceCons(s, k', x);
      assert forall i :: 1 <= i < |s| ==> s[i] == s[1..][i - 1];
    }
  }

  lemma SpliceSorted(entries: Entries, s: seq<EntityId>, k: nat, x: EntityId)
    requires Sorted(entries, s) && k <= |s|
    requires forall i :: k <= i < |s| ==> Due(entries, x) <= Due(entries, s[i])
    requires forall i :: 0 <= i < k ==> Due(entries, s[i]) <= Due(entries, x)
    ensures Sorted(entries, Splice(s, k, x))
  {
    hide Due;
  }

  lemma PrefixOrder(s: seq<EntityId>, p: seq<EntityId>, x: EntityId, y: EntityId)
    requires p <= s && ComesBefore(p, x, y)
    ensures ComesBefore(s, x, y)
  {
    var i, j :| 0 <= i < j < |p| && p[i] == x && p[j] == y;
    assert s[i] == x && s[j] == y;
  }

  lemma LastOrder(s: seq<EntityId>, y: EntityId)
    requires s != [] && y in s[..|s| - 1]
    ensures ComesBefore(s, y, s[|s| - 1])
  {
    var i :| 0 <= i < |s| - 1 && s[..|s| - 1][i] == y;
    assert s[i] == y;
  }

  /** Splicing the last element of `s` in behind its ties keeps ties in the order of `s`. */
  lemma SpliceKeepsTies(entries: Entries, s: seq<EntityId>, t: seq<EntityId>, k: nat)
    requires s != [] && k <= |t| && KeepsTies(entries, s[..|s| - 1], t) && multiset(t) == multiset(s[..|s| - 1])
    requires forall i :: k <= i < |t| ==> Due(entries, s[|s| - 1]) < Due(entries, t[i])
    ensures KeepsTies(entries, s, Splice(t, k, s[|s| - 1]))
  {
    hide Due, ComesBefore;
    var p, x := s[..|s| - 1], s[|s| - 1];
    var u := Splice(t, k, x);
    forall i, j | 0 <= i < j < |u| && Due(entries, u[i]) == Due(entries, u[j])
      ensures ComesBefore(s, u[i], u[j])
    {
      var i', j' := if i < k then i else i - 1, if j < k then j else j - 1;
      if j == k {
        assert u[i] == t[i] && t[i] in multiset(p);
        LastOrder(s, u[i]);
      } else if i != k {
        assert u[i] == t[i'] && u[j] == t[j'] && ComesBefore(p, t[i'], t[j']);
        PrefixOrder(s, p, t[i'], t[j']);
      }
    }
  }

  lemma {:induction false} SortIsStable(entries: Entries, s: seq<EntityId>)
    ensures IsStableSort(entries, s, SortByDelay(entries, s))
  {
    if s != [] {
      hide Due, ComesBefore, Insert, Splice;
      var n := |s| - 1;
      SortIsStable(entries, s[..n]);
      var t := SortByDelay(entries, s[..n]);
      var k := InsertSplices(entries, t, s[n]);
      SpliceSorted(entries, t, k, s[n]);
      SpliceKeepsTies(entries, s, t, k);
      hide Sorted, KeepsTies;
    }
  }

  lemma TailStable(entries: Entries, s: seq<EntityId>, t: seq<EntityId>)
    requires t != [] && Sorted(entries, t) && KeepsTies(entries, s, t)
    ensures Sorted(entries, t[1..]) && KeepsTies(entries, s, t[1..])
  {
    hide Due, ComesBefore;
    assert forall i :: 0 <= i < |t[1..]| ==> t[1..][i] == t[i + 1];
  }

  lemma TailBag(t: seq<EntityId>)
    requires t != []
    ensures multiset(t[1..]) == multiset(t) - multiset{t[0]}
  {
    assert t == [t[0]] + t[1..];
  }

  lemma SameHead(entries: Entries, s: seq<EntityId>, t: seq<EntityId>, u: seq<EntityId>)
    requires Distinct(s) && Sorted(entries, t) && Sorted(entries, u)
    requires KeepsTies(entries, s, t) && KeepsTies(entries, s, u)
    requires t != [] && u != [] && t[0] in u && u[0] in t
    ensures t[0] == u[0]
  {
    hide Due;
    var k :| 0 <= k < |u| && u[k] == t[0];
    var j :| 0 <= j < |t| && t[j] == u[0];
    assert Due(entries, t[0]) == Due(entries, u[0]);
  }

  /** Any stable sort gives this very list, so the one specified here is the library's. */
  lemma {:induction false} StableSortIsUnique(entries: Entries, s: seq<EntityId>, t: seq<EntityId>, u: seq<EntityId>)
    requires Distinct(s) && Sorted(entries, t) && Sorted(entries, u) && multiset(t) == multiset(u)
    requires KeepsTies(entries, s, t) && KeepsTies(entries, s, u)
    ensures t == u
  {
    hide Sorted, KeepsTies, Distinct;
    assert |multiset(t)| == |t| && |multiset(u)| == |u|;
    if t != [] {
      assert t[0] in multiset(u) && u[0] in multiset(t);
      SameHead(entries, s, t, u);
      TailStable(entries, s, t);
      TailStable(entries, s, u);
      TailBag(t);
      TailBag(u);
      StableSortIsUnique(entries, s, t[1..], u[1..]);
    }
  }

  // -------------------------------------------------------------------------
  // One advance
  // -------------------------------------------------------------------------

  /** Everybody on the list has a non-negative delay in an entry that tracks slot 0. */
  ghost predicate Steady(entries: Entries, ids: seq<EntityId>) {
    forall e :: e in ids ==>
      DelayKey(e) in entries && TracksSlotZero(entries[DelayKey(e)]) && Due(entries, e) >= 0
  }

  /** Setting such a delay always succeeds, and reads back the operand itself. */
  lemma SetDelay(s: Store, e: EntityId, v: Raw)
    requires DelayKey(e) in s.entries && TracksSlotZero(s.entries[DelayKey(e)])
    ensures ModifySourceZero(s, DelayKey(e), SET, v).Ok?
    ensures var t := ModifySourceZero(s, DelayKey(e), SET, v).value;
      DelaySet(s, t, e, v)
  {
    var r := s.entries[DelayKey(e)];
    assert DelayKey(e).property == 38;
    assert ApplyModifyFunction(SET, r.materialized, v) == v;
    SlotZeroTracks(r, v);
    hide Update, TracksSlotZero;
  }

  lemma AfterExact(delay: Raw, selected: Raw)
    requires 0 <= Denote(selected) <= Denote(delay)
    ensures !IsNegative(Subtract(delay, selected))
    ensures After(delay, selected) == Subtract(delay, selected)
    ensures Decode(After(delay, selected)) == FloorEven(Decode(delay) - Decode(selected))
    ensures OnGrid(After(delay, selected)) && Denote(After(delay, selected)) >= 0
    ensures delay == selected ==> After(delay, selected) == ZERO
  {
    hide Denote, Decode, Encode, IsNegative, OnGrid;
    FixPointLaws.DecodeMonotone(selected, delay);
    if delay == selected {
      assert After(delay, selected) == Encode(0);
      EncodeZero();
    }
  }

  lemma EncodeZero()
    ensures Encode(0) == 0
  {
  }

  ghost predicate SameKeys(s: Store, t: Store) {
    forall k :: k in t.entries <==> k in s.entries
  }

  /** Letting a delay pass reaches everybody on the list. */
  ghost predicate Reached(s: Store, t: Store, ids: seq<EntityId>, selected: Raw) {
    forall e :: e in ids ==>
      && DelayKey(e) in t.entries && TracksSlotZero(t.entries[DelayKey(e)])
      && Delay(t.entries, e) == After(Delay(s.entries, e), selected)
  }

  /** Only the delays of the list change. */
  ghost predicate OthersKept(s: Store, t: Store, ids: seq<EntityId>) {
    forall k :: k in s.entries && (forall e :: e in ids ==> k != DelayKey(e)) ==> k in t.entries && t.entries[k] == s.entries[k]
  }

  /** `t` is `s` with the delay of `e` set to `v`. */
  ghost predicate DelaySet(s: Store, t: Store, e: EntityId, v: Raw) {
    && SameKeys(s, t) && DelayKey(e) in t.entries
    && Delay(t.entries, e) == v && TracksSlotZero(t.entries[DelayKey(e)])
    && (forall k :: k in s.entries && k != DelayKey(e) ==> t.entries[k] == s.entries[k])
  }

  lemma OtherDelays(s: Store, t: Store, e: EntityId, v: Raw, ids: seq<EntityId>)
    requires DelaySet(s, t, e, v) && e !in ids
    ensures forall e' :: e' in ids ==> Delay(t.entries, e') == Delay(s.entries, e')
    ensures Steady(s.entries, ids) ==> Steady(t.entries, ids)
  {
    hide TracksSlotZero, Denote;
    assert forall e' :: e' in ids ==> DelayKey(e') != DelayKey(e);
  }

  /** The head of the list keeps its new delay while the rest is reached. */
  lemma HeadKept(s: Store, s': Store, t: Store, ids: seq<EntityId>, v: Raw)
    requires ids != [] && ids[0] !in ids[1..] && DelaySet(s, s', ids[0], v) && OthersKept(s', t, ids[1..])
    ensures DelayKey(ids[0]) in t.entries && TracksSlotZero(t.entries[DelayKey(ids[0])]) && Delay(t.entries, ids[0]) == v
  {
    hide TracksSlotZero;
    forall e | e in ids[1..]
      ensures DelayKey(ids[0]) != DelayKey(e)
    {
    }
  }

  lemma ReachedCons(s: Store, s': Store, t: Store, ids: seq<EntityId>, selected: Raw)
    requires ids != [] && ids[0] !in ids[1..] && DelaySet(s, s', ids[0], After(Delay(s.entries, ids[0]), selected))
    requires Reached(s', t, ids[1..], selected) && OthersKept(s', t, ids[1..])
    ensures Reached(s, t, ids, selected)
  {
    hide TracksSlotZero, After, Steady, Delay, DelaySet, OthersKept, Denote;
    OtherDelays(s, s', ids[0], After(Delay(s.entries, ids[0]), selected), ids[1..]);
    HeadKept(s, s', t, ids, After(Delay(s.entries, ids[0]), selected));
    assert forall e :: e in ids ==> e == ids[0] || e in ids[1..];
  }

  lemma OthersCons(s: Store, s': Store, t: Store, ids: seq<EntityId>, v: Raw)
    requires ids != [] && DelaySet(s, s', ids[0], v) && SameKeys(s', t) && OthersKept(s', t, ids[1..])
    ensures OthersKept(s, t, ids) && SameKeys(s, t)
  {
    hide TracksSlotZero, Delay;
    assert ids[0] in ids && forall e :: e in ids[1..] ==> e in ids;
  }

  lemma {:induction false} PassDelayPasses(s: Store, ids: seq<EntityId>, selected: Raw)
    requires Distinct(ids) && Steady(s.entries, ids)
    ensures var (t, failure) := PassDelay(s, ids, selected);
      failure == None && SameKeys(s, t) && Reached(s, t, ids, selected) && OthersKept(s, t, ids)
    decreases |ids|
  {
    hide TracksSlotZero, After, Denote, IsNegative, Reached, OthersKept;
    if ids == [] {
      NobodyReached(s, selected);
    } else {
      var e := ids[0];
      assert e in ids;
      var v := After(Delay(s.entries, e), selected);
      SetDelay(s, e, v);
      ReadsItsEntry(s.entries, e);
      hide ModifySourceZero;
      var s' := ModifySourceZero(s, DelayKey(e), SET, v).value;
      assert forall e' :: e' in ids[1..] ==> e' in ids;
      assert e !in ids[1..];
      OtherDelays(s, s', e, v, ids[1..]);
      hide Steady;
      PassDelayPasses(s', ids[1..], selected);
      ReachedCons(s, s', PassDelay(s', ids[1..], selected).0, ids, selected);
      OthersCons(s, s', PassDelay(s', ids[1..], selected).0, ids, v);
    }
  }

  lemma NobodyReached(s: Store, selected: Raw)
    ensures Reached(s, s, [], selected) && OthersKept(s, s, [])
  {
  }

  lemma ReadsItsEntry(entries: Entries, e: EntityId)
    requires DelayKey(e) in entries && TracksSlotZero(entries[DelayKey(e)]) && Due(entries, e) >= 0
    ensures DelayEntry(entries, e) == Ok(entries[DelayKey(e)])
    ensures Delay(entries, e) == entries[DelayKey(e)].materialized
  {
  }

  /** The clock may advance: a checked timeline, no action pending, and a steady list. */
  ghost predicate MayAdvance(c: Clock) {
    CheckTimeline(c.timeline).Ok? && c.timeline.value.phase != Active && Steady(c.store.entries, c.timeline.value.ids)
  }

  /** Initialization succeeds just for a non-empty list of distinct participants that all have a
      delay; it keeps their order, and where the delays track slot 0 the clock may then advance. */
  lemma InitializedMayAdvance(s: Store, participants: seq<Option<EntityId>>, ids: seq<EntityId>)
    requires |ids| == |participants|
    requires forall i :: 0 <= i < |ids| ==> participants[i].Some? ==> participants[i] == Some(ids[i])
    ensures Initialize(s.entries, participants).Ok? <==>
      ids != [] && (forall p :: p in participants ==> p.Some?) && Distinct(ids) && AllParticipate(s.entries, ids)
    ensures Initialize(s.entries, participants).Ok? ==>
      var t := Initialize(s.entries, participants).value;
      t.ids == ids && (Steady(s.entries, ids) ==> MayAdvance(Clock(s, Some(t))))
  {
    hide DelayEntry, TracksSlotZero, Steady;
    if None !in participants {
      assert forall i :: 0 <= i < |ids| ==> participants[i] in participants;
      assert ids == seq(|participants|, i requires 0 <= i < |participants| => participants[i].GetOr(0));
    }
    assert !IsNegative(ZERO);
  }

  lemma SteadyParticipates(entries: Entries, ids: seq<EntityId>)
    requires Steady(entries, ids)
    ensures AllParticipate(entries, ids)
  {
    forall e | e in ids
      ensures DelayEntry(entries, e).Ok?
    {
      ReadsItsEntry(entries, e);
    }
  }

  lemma SteadyOnPermutation(entries: Entries, ids: seq<EntityId>, t: seq<EntityId>)
    requires Steady(entries, ids) && Distinct(ids) && multiset(t) == multiset(ids)
    ensures Steady(entries, t) && Distinct(t)
    ensures forall e :: e in t <==> e in ids
  {
    hide TracksSlotZero, Due;
    assert forall e :: e in t <==> e in multiset(t);
    assert forall e :: e in ids <==> e in multiset(ids);
    forall i, j | 0 <= i < j < |t|
      ensures t[i] != t[j]
    {
      if t[i] == t[j] {
        TwiceInBag(t, i, j);
        AtMostOnce(ids, t[i]);
      }
    }
  }

  lemma TwiceInBag(t: seq<EntityId>, i: nat, j: nat)
    requires i < j < |t| && t[i] == t[j]
    ensures multiset(t)[t[i]] >= 2
  {
    assert t == t[..j] + ([t[j]] + t[j + 1..]);
    assert t[..j][i] == t[i];
  }

  lemma {:induction false} AtMostOnce(ids: seq<EntityId>, e: EntityId)
    requires Distinct(ids)
    ensures multiset(ids)[e] <= 1
  {
    if ids != [] {
      AtMostOnce(ids[1..], e);
      assert ids == [ids[0]] + ids[1..];
    }
  }

  /** What an advance from `c` to `c'` with the given actor does. */
  ghost predicate Advanced(c: Clock, c': Clock, actor: EntityId)
    requires c.timeline.Some? && c'.timeline.Some?
  {
    var t, t', entries := c.timeline.value, c'.timeline.value, c.store.entries;
    var selected := Delay(entries, actor);
    // the list becomes its stable sort, with the actor at the head
    && IsStableSort(entries, t.ids, t'.ids) && t'.ids != [] && actor == t'.ids[0]
    && (forall e :: e in t'.ids <==> e in t.ids)
    && (forall e :: e in t.ids ==> Due(entries, actor) <= Due(entries, e))
    // everybody loses the actor's delay, the clamp never fires, and nothing else changes
    && (forall e :: e in t.ids ==> !IsNegative(Subtract(Delay(entries, e), selected)))
    && Reached(c.store, c'.store, t.ids, selected) && OthersKept(c.store, c'.store, t.ids)
    && Delay(c'.store.entries, actor) == ZERO
    // the timeline
    && t'.elapsed == Add(t.elapsed, selected) && t'.turnIndex == t.turnIndex + 1
    && t'.phase == Active && t'.actor == Some(actor) && t'.provenance == None && CheckTimeline(c'.timeline).Ok?
  }

  /** The state an advance ends in, once it is known to succeed. */
  function AfterAdvance(c: Clock): Clock
    requires c.timeline.Some? && c.timeline.value.ids != []
  {
    var t := c.timeline.value;
    var ordered := SortByDelay(c.store.entries, t.ids);
    var selected := Delay(c.store.entries, ordered[0]);
    Clock(PassDelay(c.store, ordered, selected).0,
          Some(Timeline(ordered, Some(ordered[0]), Add(t.elapsed, selected), t.turnIndex + 1, Active, None)))
  }

  lemma HeadIsLeast(entries: Entries, t: seq<EntityId>)
    requires t != [] && Sorted(entries, t)
    ensures forall e :: e in t ==> Due(entries, t[0]) <= Due(entries, e)
  {
    hide Due;
  }

  /** The clamp of negative remainders is never taken: whatever kinds of entries the participants
      have, the least of their delays can be taken from each. */
  lemma ClampNeverFires(entries: Entries, ids: seq<EntityId>)
    requires ids != [] && AllParticipate(entries, ids)
    ensures forall e :: e in ids ==> !IsNegative(Subtract(Delay(entries, e), Delay(entries, SortByDelay(entries, ids)[0])))
  {
    hide Denote, Decode, OnGrid, IsNegative, Subtract, Delay, KeepsTies, Sorted;
    var ordered := SortByDelay(entries, ids);
    SortIsStable(entries, ids);
    HeadIsLeast(entries, ordered);
    assert ordered[0] in multiset(ordered) && ordered[0] in ids;
    ParticipantsNonNegative(entries, ids);
    forall e | e in ids
      ensures !IsNegative(Subtract(Delay(entries, e), Delay(entries, ordered[0])))
    {
      assert e in multiset(ordered) && e in ordered;
      AfterExact(Delay(entries, e), Delay(entries, ordered[0]));
    }
  }

  lemma ParticipantsNonNegative(entries: Entries, ids: seq<EntityId>)
    requires AllParticipate(entries, ids)
    ensures forall e :: e in ids ==> Due(entries, e) >= 0
  {
    hide Denote, IsNegative;
    forall e | e in ids
      ensures Due(entries, e) >= 0
    {
      assert DelayEntry(entries, e).Ok?;
    }
  }

  lemma ReachedPermuted(s: Store, t: Store, ids: seq<EntityId>, ids': seq<EntityId>, selected: Raw)
    requires forall e :: e in ids <==> e in ids'
    ensures Reached(s, t, ids, selected) ==> Reached(s, t, ids', selected)
    ensures OthersKept(s, t, ids) ==> OthersKept(s, t, ids')
  {
    hide TracksSlotZero, After, Delay;
  }

  lemma ElapsedGrows(elapsed: Raw, selected: Raw)
    requires !IsNegative(elapsed) && Denote(selected) >= 0
    ensures !IsNegative(Add(elapsed, selected))
  {
    FixPointLaws.NonNegativeResults(elapsed, selected);
    hide Denote, IsNegative, Add;
  }

  lemma AdvanceMoves(c: Clock)
    requires MayAdvance(c)
    ensures c.timeline.value.ids != []
    ensures var c' := AfterAdvance(c);
      Advanced(c, c', c'.timeline.value.ids[0]) && Steady(c'.store.entries, c'.timeline.value.ids)
  {
    hide TracksSlotZero, After, Denote, IsNegative, KeepsTies, OthersKept, Add, Subtract, SortByDelay, PassDelay, Delay,
      AllParticipate, Decode, OnGrid;
    var t := c.timeline.value;
    var entries := c.store.entries;
    SortIsStable(entries, t.ids);
    var ordered := SortByDelay(entries, t.ids);
    SteadyOnPermutation(entries, t.ids, ordered);
    var selected := Delay(entries, ordered[0]);
    PassDelayPasses(c.store, ordered, selected);
    HeadIsLeast(entries, ordered);
    assert ordered[0] in ordered;
    hide Sorted;
    var store := PassDelay(c.store, ordered, selected).0;
    SteadyParticipates(entries, t.ids);
    ClampNeverFires(entries, t.ids);
    assert Steady(store.entries, ordered) && Delay(store.entries, ordered[0]) == ZERO by {
      forall e | e in ordered
        ensures Due(store.entries, e) >= 0
      {
        AfterExact(Delay(entries, e), selected);
      }
      AfterExact(selected, selected);
    }
    hide Reached;
    ReachedPermuted(c.store, store, ordered, t.ids, selected);
    ElapsedGrows(t.elapsed, selected);
    hide Steady, Due;
  }

  /** An advance succeeds, and does what `Advanced` says. */
  lemma AdvanceLaw(c: Clock)
    requires MayAdvance(c)
    ensures var (c', r) := Advance(c);
      r.Ok? && c'.timeline.Some? && Advanced(c, c', r.value.actor) && Steady(c'.store.entries, c'.timeline.value.ids)
      && r.value.selectedDelay == Delay(c.store.entries, r.value.actor) && r.value.elapsed == c'.timeline.value.elapsed
      && r.value.ordered == c'.timeline.value.ids && r.value.turnIndex == c'.timeline.value.turnIndex
  {
    hide Denote, Decode, OnGrid, IsNegative, Sorted, KeepsTies, Reached, OthersKept, TracksSlotZero, Distinct, SortByDelay,
      PassDelay, Delay, AllParticipate, Add, Subtract;
    var t, entries := c.timeline.value, c.store.entries;
    SteadyParticipates(entries, t.ids);
    SortIsStable(entries, t.ids);
    var ordered := SortByDelay(entries, t.ids);
    SteadyOnPermutation(entries, t.ids, ordered);
    PassDelayPasses(c.store, ordered, Delay(entries, ordered[0]));
    hide Steady, Due;
    assert Advance(c).0 == AfterAdvance(c) && Advance(c).1.Ok? && Advance(c).1.value.actor == ordered[0];
    assert AfterAdvance(c).timeline.value.ids == ordered;
    AdvanceMoves(c);
  }

  /** Everybody's delay and the elapsed delay are on the grid, and time does not saturate. */
  ghost predicate Exact(c: Clock) {
    && c.timeline.Some? && OnGrid(c.timeline.value.elapsed)
    && (forall e :: e in c.timeline.value.ids ==>
         OnGrid(Delay(c.store.entries, e))
         && Decode(c.timeline.value.elapsed) + Decode(Delay(c.store.entries, e)) <= INT64_MAX)
  }

  /** An absolute due time: elapsed plus remaining delay, in units of 2^-33. */
  function DueTime(c: Clock, e: EntityId): int
    requires c.timeline.Some?
  {
    Denote(c.timeline.value.elapsed) + Due(c.store.entries, e)
  }

  lemma ExactPass(delay: Raw, selected: Raw)
    requires OnGrid(delay) && OnGrid(selected) && 0 <= Denote(selected) <= Denote(delay)
    ensures OnGrid(After(delay, selected))
    ensures Denote(After(delay, selected)) == Denote(delay) - Denote(selected)
    ensures Decode(After(delay, selected)) == Decode(delay) - Decode(selected)
  {
    hide Denote, Decode, After, OnGrid, Subtract, IsNegative;
    AfterExact(delay, selected);
    FixPointLaws.DecodeMonotone(delay, delay);
    FixPointLaws.DecodeMonotone(selected, selected);
    FixPointLaws.DecodeMonotone(After(delay, selected), After(delay, selected));
  }

  /** Conservation: an advance moves nobody's due time. */
  lemma AdvanceConservesDueTimes(c: Clock, e: EntityId)
    requires MayAdvance(c) && Exact(c) && e in c.timeline.value.ids
    ensures Advance(c).0.timeline.Some? && DueTime(Advance(c).0, e) == DueTime(c, e)
    ensures Exact(Advance(c).0)
  {
    hide Advance, Denote, Decode, IsNegative, OnGrid, Delay, After, Add, Subtract, IsStableSort, OthersKept, TracksSlotZero,
      Distinct;
    AdvanceLaw(c);
    var c' := Advance(c).0;
    var actor := Advance(c).1.value.actor;
    assert actor in c.timeline.value.ids && Due(c.store.entries, actor) >= 0;
    forall x | x in c.timeline.value.ids
      ensures OnGrid(Delay(c'.store.entries, x)) && OnGrid(c'.timeline.value.elapsed)
      ensures DueTime(c', x) == DueTime(c, x)
      ensures Decode(c'.timeline.value.elapsed) + Decode(Delay(c'.store.entries, x))
           == Decode(c.timeline.value.elapsed) + Decode(Delay(c.store.entries, x))
    {
      ExactPass(Delay(c.store.entries, x), Delay(c.store.entries, actor));
      FixPointLaws.DecodeMonotone(Delay(c.store.entries, actor), Delay(c.store.entries, x));
      FixPointLaws.GridExact(c.timeline.value.elapsed, Delay(c.store.entries, actor));
      ElapsedSum(c.timeline.value.elapsed, Delay(c.store.entries, actor));
    }
  }

  lemma ElapsedSum(elapsed: Raw, selected: Raw)
    requires !IsNegative(elapsed) && Denote(selected) >= 0
    ensures 0 <= Decode(elapsed) + Decode(selected)
    ensures OnGrid(Add(elapsed, selected))
  {
    hide Denote, Decode, IsNegative;
  }

  // -------------------------------------------------------------------------
  // Refusals
  // -------------------------------------------------------------------------

  /** A timeline is usable exactly when it is there, lists somebody, nobody twice, and its elapsed
      delay is not negative. */
  lemma TimelineUsableIff(timeline: Option<Timeline>)
    ensures CheckTimeline(timeline).Ok? <==>
      && timeline.Some? && timeline.value.ids != [] && Denote(timeline.value.elapsed) >= 0
      && forall i, j :: 0 <= i < j < |timeline.value.ids| ==> timeline.value.ids[i] != timeline.value.ids[j]
    ensures CheckTimeline(timeline) == match timeline
      case None => Err(NotInitialized)
      case Some(t) => if CheckTimeline(timeline).Ok? then Ok(t) else Err(InvalidTimeline)
  {
    hide Denote, IsNegative;
  }

  /** An entity takes part exactly when it has a delay that is not negative and no post stage. */
  lemma ParticipatesIff(entries: Entries, e: EntityId)
    ensures DelayEntry(entries, e).Ok? <==>
      && EntryKey(e, 38) in entries
      && var r := entries[EntryKey(e, 38)];
      Denote(r.materialized) >= 0 && !r.post.hookContext && !r.post.transformA && !r.post.transformB
  {
    hide Denote, IsNegative;
  }

  /** The refusals of an initialization, first come first served, and otherwise its result. */
  lemma InitializeRefusals(entries: Entries, participants: seq<Option<EntityId>>, ids: seq<EntityId>)
    requires |ids| == |participants| && forall i :: 0 <= i < |ids| ==> participants[i] == Some(ids[i])
    ensures participants == [] ==> Initialize(entries, participants) == Err(NoParticipants)
    ensures participants != [] && !Distinct(ids) ==> Initialize(entries, participants) == Err(DuplicateParticipants)
    ensures participants != [] && Distinct(ids) && !AllParticipate(entries, ids) ==>
      Initialize(entries, participants) == Err(ParticipantRejected)
    ensures participants != [] && Distinct(ids) && AllParticipate(entries, ids) ==>
      Initialize(entries, participants) == Ok(Timeline(ids, None, 0, 0, Ready, None))
  {
    hide DelayEntry, Distinct;
    assert ids == seq(|participants|, i requires 0 <= i < |participants| => participants[i].GetOr(0));
  }

  /** A pending action blocks the next advance, a missing delay any advance; neither changes anything. */
  lemma AdvanceRefusals(c: Clock)
    requires CheckTimeline(c.timeline).Ok?
    ensures c.timeline.value.phase == Active ==> Advance(c) == (c, Err(CompletionRequired))
    ensures c.timeline.value.phase != Active && !AllParticipate(c.store.entries, c.timeline.value.ids) ==>
      Advance(c) == (c, Err(ParticipantRejected))
  {
    hide SortByDelay, PassDelay, AllParticipate, Distinct, IsNegative;
  }

  /** Only the pending action of the current actor can be acknowledged, with a recharge that is not
      negative; anything else changes nothing.  Then the recharge is the actor's delay, the action is
      settled with its provenance, and nothing else moves. */
  lemma AcknowledgeMeaning(c: Clock, actor: EntityId, recharge: Raw, provenance: string)
    requires CheckTimeline(c.timeline).Ok?
    ensures var (c', failure) := Acknowledge(c, actor, recharge, provenance);
      var t := c.timeline.value;
      && (t.phase != Active ==> (c', failure) == (c, Some(NoActiveAction)))
      && (t.phase == Active && t.actor != Some(actor) ==> (c', failure) == (c, Some(ActorMismatch)))
      && (t.phase == Active && t.actor == Some(actor) && Denote(recharge) < 0 ==> (c', failure) == (c, Some(NegativeRecharge)))
      && (t.phase == Active && t.actor == Some(actor) && Denote(recharge) >= 0
          && DelayKey(actor) in c.store.entries && TracksSlotZero(c.store.entries[DelayKey(actor)]) ==>
            && failure == None && DelaySet(c.store, c'.store, actor, recharge)
            && c'.timeline == Some(Timeline(t.ids, t.actor, t.elapsed, t.turnIndex, Settled, Some(provenance))))
  {
    hide Distinct, TracksSlotZero, ModifySourceZero, DelaySet, Denote, IsNegative;
    var t := c.timeline.value;
    if t.phase == Active && t.actor == Some(actor) && DelayKey(actor) in c.store.entries
       && TracksSlotZero(c.store.entries[DelayKey(actor)]) {
      SetDelay(c.store, actor, recharge);
    }
  }
}

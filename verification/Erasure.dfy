/** Erasing a modifier: what a popped modifier did leaves no trace. */
module Erasure {
  import opened Wrappers
  import opened FixPoint
  import opened PropertyEntries
  import opened BattleStates
  import opened PropertyRuntime
  import opened SlotLaws
  import opened FoldLaws
  import opened Ownership
  import opened Ledgers

  ghost function LedgerOf(s: Store, a: ModifierRef): Ledger {
    Ledger(map key | key in s.entries :: FormOf(s.entries[key]),
           map m | m in s.owned && m != a :: HeldAll(s, s.owned[m]),
           map key | key in s.entries :: ForeignBag(s, a, key),
           map key | key in s.entries :: ZeroOf(s.entries[key]))
  }

  lemma LedgerOfRepresents(s: Store, a: ModifierRef)
    ensures Represents(s, a, LedgerOf(s, a))
  {
    hide ForeignBag, HeldAll, FormOf, ZeroOf;
  }

  lemma NothingForeign(s: Store, a: ModifierRef, key: EntryKey)
    requires a !in s.owned && key in s.entries
    ensures ForeignBag(s, a, key) == ActiveBag(s.entries[key])
  {
    hide BagOf;
    assert forall i :: !Recorded(s, a, key, i);
    assert Foreign(s, a, key) == s.entries[key].active;
  }

  /** Two stores that differ at most in which slots hold what. */
  ghost predicate SameUpToSlots(s: Store, t: Store) {
    && (forall key :: key in t.entries <==> key in s.entries)
    && (forall key :: key in s.entries ==>
         && FormOf(t.entries[key]) == FormOf(s.entries[key])
         && ZeroOf(t.entries[key]) == ZeroOf(s.entries[key])
         && ActiveBag(t.entries[key]) == ActiveBag(s.entries[key]))
    && (forall m :: m in t.owned <==> m in s.owned)
    && (forall m :: m in s.owned ==> HeldAll(t, t.owned[m]) == HeldAll(s, s.owned[m]))
  }

  /** Stores with the same ledger, neither of them knowing the modifier left out. */
  lemma SameLedgerSameStore(s: Store, t: Store, a: ModifierRef, l: Ledger)
    requires Represents(s, a, l) && Represents(t, a, l) && a !in s.owned && a !in t.owned
    ensures SameUpToSlots(s, t)
  {
    hide Represents, FormOf, ZeroOf, ActiveBag, HeldAll;
    SameLedgerSameEntries(s, t, a, l);
    ListedExactly(s, a, l);
    ListedExactly(t, a, l);
    SameLedgerSameHoldings(s, t, a, l);
    SameLedgerSameForms(s, t, a, l);
  }

  lemma SameLedgerSameHoldings(s: Store, t: Store, a: ModifierRef, l: Ledger)
    requires Represents(s, a, l) && Represents(t, a, l) && a !in s.owned && a !in t.owned
    ensures forall m :: m in s.owned ==> m in t.owned && HeldAll(t, t.owned[m]) == HeldAll(s, s.owned[m])
  {
    hide FormsAgree, ZerosAgree, BagsAgree, HeldAll;
  }

  lemma SameLedgerSameForms(s: Store, t: Store, a: ModifierRef, l: Ledger)
    requires Represents(s, a, l) && Represents(t, a, l)
    ensures forall key :: key in s.entries ==> key in t.entries
    ensures forall key :: key in s.entries ==> FormOf(t.entries[key]) == FormOf(s.entries[key])
    ensures forall key :: key in s.entries ==> ZeroOf(t.entries[key]) == ZeroOf(s.entries[key])
  {
    hide HoldingsAgree, BagsAgree, FormOf, ZeroOf;
  }

  lemma SameLedgerSameEntries(s: Store, t: Store, a: ModifierRef, l: Ledger)
    requires Represents(s, a, l) && Represents(t, a, l) && a !in s.owned && a !in t.owned
    ensures forall key :: key in t.entries <==> key in s.entries
    ensures forall key :: key in s.entries ==> ActiveBag(t.entries[key]) == ActiveBag(s.entries[key])
  {
    hide FormOf, ZeroOf, HeldAll, HoldingsAgree;
    assert forall key :: key in l.forms <==> key in s.entries;
    forall key | key in s.entries
      ensures ActiveBag(t.entries[key]) == ActiveBag(s.entries[key])
    {
      NothingForeign(s, a, key);
      NothingForeign(t, a, key);
      hide ActiveBag, ForeignBag;
    }
  }

  lemma {:induction false} RunConcat(s: Store, p: seq<Step>, q: seq<Step>)
    ensures Ownership.Run(s, p + q) == Ownership.Run(Ownership.Run(s, p), q)
    decreases |p|
  {
    hide Apply;
    if p == [] {
      assert p + q == q;
    } else {
      assert (p + q)[0] == p[0] && (p + q)[1..] == p[1..] + q;
      RunConcat(Apply(s, p[0]), p[1..], q);
    }
  }

  lemma {:induction false} EraseConcat(p: seq<Step>, q: seq<Step>, a: ModifierRef)
    ensures Erase(p + q, a) == Erase(p, a) + Erase(q, a)
    decreases |p|
  {
    hide IsStepOf;
    if p == [] {
      assert p + q == q;
    } else {
      assert (p + q)[0] == p[0] && (p + q)[1..] == p[1..] + q;
      EraseConcat(p[1..], q, a);
    }
  }

  lemma EraseLeavesNone(steps: seq<Step>, a: ModifierRef)
    ensures Erase(Erase(steps, a), a) == Erase(steps, a)
    ensures forall step :: step in Erase(steps, a) ==> step in steps && !IsStepOf(step, a)
  {
  }

  /** Only a modifier's own steps give it records. */
  lemma {:induction false} StaysUnknown(s: Store, steps: seq<Step>, a: ModifierRef)
    requires Sound(s) && a !in s.owned && forall step :: step in steps ==> !IsStepOf(step, a)
    ensures a !in Ownership.Run(s, steps).owned
    decreases |steps|
  {
    hide Sound;
    if steps != [] {
      StepLeavesUnknown(s, steps[0], a);
      ApplyKeeps(s, steps[0]);
      assert forall step :: step in steps[1..] ==> step in steps;
      hide Apply;
      StaysUnknown(Apply(s, steps[0]), steps[1..], a);
    }
  }

  lemma StepLeavesUnknown(s: Store, step: Step, a: ModifierRef)
    requires Sound(s) && a !in s.owned && !IsStepOf(step, a)
    ensures a !in Apply(s, step).owned
  {
    hide Sound, Allocate, Update, PopContributions;
    if step.Pop? {
      PopKeeps(s, step.m);
    }
  }

  /** Erasure.  Take any run of stacks, refreshes, pops and slot-0 sets in which modifier `a`,
      unknown at first, is popped at the end.  Deleting every step of `a` gives a run that ends in
      the same store up to slot numbers: same bags of active values, same slot 0, and for every
      other modifier the same list of contributions. */
  lemma ErasedModifierLeavesNoTrace(s0: Store, steps: seq<Step>, a: ModifierRef)
    requires Sound(s0) && HasSlotZero(s0) && a !in s0.owned
    requires forall step :: step in steps ==> IsSet(step)
    ensures SameUpToSlots(Ownership.Run(s0, steps + [Pop(a)]), Ownership.Run(s0, Erase(steps, a)))
  {
    hide Sound, HasSlotZero, Represents, SameUpToSlots, Apply, IsSet, LedgerApply;
    var l := LedgerOf(s0, a);
    LedgerOfRepresents(s0, a);
    EraseLeavesNone(steps, a);
    RunRefinesLedger(s0, a, l, steps);
    RunRefinesLedger(s0, a, l, Erase(steps, a));
    StaysUnknown(s0, Erase(steps, a), a);
    var s := Ownership.Run(s0, steps);
    RunIsSound(s0, steps);
    RunKeepsSlotZero(s0, a, l, steps);
    RunConcat(s0, steps, [Pop(a)]);
    LastPop(s, a, LedgerRun(l, Erase(steps, a)));
    SameLedgerSameStore(Ownership.Run(s, [Pop(a)]), Ownership.Run(s0, Erase(steps, a)), a, LedgerRun(l, Erase(steps, a)));
  }

  lemma LastPop(s: Store, a: ModifierRef, l: Ledger)
    requires Sound(s) && HasSlotZero(s) && Represents(s, a, l)
    ensures var t := Ownership.Run(s, [Pop(a)]);
      t == PopContributions(s, a).0 && a !in t.owned && Represents(t, a, l)
  {
    hide Sound, HasSlotZero, Represents, PopContributions;
    PopKeeps(s, a);
    PopRefines(s, a, l, a);
    assert [Pop(a)][1..] == [];
  }

  lemma {:induction false} RunKeepsSlotZero(s: Store, a: ModifierRef, l: Ledger, steps: seq<Step>)
    requires Sound(s) && HasSlotZero(s) && Represents(s, a, l) && forall step :: step in steps ==> IsSet(step)
    ensures HasSlotZero(Ownership.Run(s, steps))
    decreases |steps|
  {
    hide Sound, HasSlotZero, Represents, Apply, IsSet, LedgerApply, IsStepOf;
    if steps != [] {
      StepRefines(s, a, l, steps[0]);
      ApplyKeeps(s, steps[0]);
      assert forall step :: step in steps[1..] ==> step in steps;
      RunKeepsSlotZero(Apply(s, steps[0]), a, if IsStepOf(steps[0], a) then l else LedgerApply(l, steps[0]), steps[1..]);
    }
  }

  // -------------------------------------------------------------------------
  // What observers read
  // -------------------------------------------------------------------------

  /** Two entries whose materialized numbers do not depend on slot numbers: slot-0 selection, the two
      extrema, and the additive fold when it accumulates, or sums exactly in both slot orders. */
  ghost predicate Slotless(r: EntryRecord, t: EntryRecord) {
    && r.post.AllNull()
    && (r.kind in {1, 6, 7} || (r.kind == 3 && (Accumulates(r) || (SumsExactly(r) && SumsExactly(t)))))
  }

  lemma SlotlessAgree(r: EntryRecord, t: EntryRecord)
    requires Slotless(r, t) && InSync(r) && InSync(t) && r.value != [] && t.value != []
    requires FormOf(t) == FormOf(r) && ZeroOf(t) == ZeroOf(r) && ActiveBag(t) == ActiveBag(r)
    ensures Equal(r.materialized, t.materialized)
  {
    RebuildIsSync(r);
    RebuildIsSync(t);
    if r.kind != 1 {
      SameBagSameValue(r, t);
    }
    hide Compare, Denote, ActiveBag, Accumulates, SumsExactly, FoldAdd, FoldMultiply, FirstMin, FirstMax, ActiveValues;
  }

  /** Erasure as observers see it: every slotless entry reads the same number. */
  lemma ErasedModifierKeepsEveryValue(s0: Store, steps: seq<Step>, a: ModifierRef, key: EntryKey)
    requires Sound(s0) && HasSlotZero(s0) && a !in s0.owned && key in s0.entries
    requires forall step :: step in steps ==> IsSet(step)
    ensures var s, t := Ownership.Run(s0, steps + [Pop(a)]), Ownership.Run(s0, Erase(steps, a));
      && key in s.entries && key in t.entries
      && (Slotless(s.entries[key], t.entries[key]) ==> Equal(s.entries[key].materialized, t.entries[key].materialized))
  {
    hide Sound, HasSlotZero, Represents, Apply, IsSet, Slotless, SameUpToSlots;
    ErasedModifierLeavesNoTrace(s0, steps, a);
    var s, t := Ownership.Run(s0, steps + [Pop(a)]), Ownership.Run(s0, Erase(steps, a));
    var l := LedgerOf(s0, a);
    LedgerOfRepresents(s0, a);
    EraseLeavesNone(steps, a);
    assert forall step :: step in steps + [Pop(a)] ==> IsSet(step) by { PopIsSet(a); }
    RunIsSound(s0, steps + [Pop(a)]);
    RunIsSound(s0, Erase(steps, a));
    RunKeepsSlotZero(s0, a, l, steps + [Pop(a)]);
    RunKeepsSlotZero(s0, a, l, Erase(steps, a));
    RunKeepsEntries(s0, steps + [Pop(a)], key);
    CompareEntry(s, t, key);
  }

  lemma PopIsSet(a: ModifierRef)
    ensures IsSet(Pop(a))
  {
  }

  lemma CompareEntry(s: Store, t: Store, key: EntryKey)
    requires Sound(s) && Sound(t) && HasSlotZero(s) && HasSlotZero(t) && SameUpToSlots(s, t) && key in s.entries
    ensures key in t.entries
    ensures Slotless(s.entries[key], t.entries[key]) ==> Equal(s.entries[key].materialized, t.entries[key].materialized)
  {
    hide Slotless, RecordsPoint, NoSharing, NoOrphans, WellStamped, InSync, ActiveBag, ZeroOf, FormOf, HeldAll;
    if Slotless(s.entries[key], t.entries[key]) {
      SlotlessAgree(s.entries[key], t.entries[key]);
    }
  }

  lemma {:induction false} RunKeepsEntries(s: Store, steps: seq<Step>, key: EntryKey)
    requires Sound(s) && key in s.entries
    ensures key in Ownership.Run(s, steps).entries
    decreases |steps|
  {
    hide Sound;
    if steps != [] {
      StepKeepsEntry(s, steps[0], key);
      ApplyKeeps(s, steps[0]);
      hide Apply;
      RunKeepsEntries(Apply(s, steps[0]), steps[1..], key);
    }
  }

  lemma StepKeepsEntry(s: Store, step: Step, key: EntryKey)
    requires Sound(s) && key in s.entries
    ensures key in Apply(s, step).entries
  {
    hide Sound, Allocate, Update, PopContributions;
    if step.Pop? {
      PopDisablesExactlyItsSlots(s, step.m);
    }
  }

  /** The last-changed kind is not slotless: after a stack and the pop of it the entry still reads
      the popped value, so it reads what it did before exactly when that value is the old one. */
  lemma LastChangedRemembersThePopped(r: EntryRecord, v: Raw)
    requires WellStamped(r) && InSync(r) && r.kind == 2 && r.post.AllNull()
    ensures Allocate(r, v).Ok? && Remove(Allocate(r, v).value, ChosenSlot(r)).Ok?
    ensures Remove(Allocate(r, v).value, ChosenSlot(r)).value.materialized == v
  {
    AllocateShape(r, v);
    StepKeeps(r, AllocateOp(v));
    hide Allocate;
    var r', i := Allocate(r, v).value, ChosenSlot(r);
    RemoveShape(r', i);
    if r'.extent == 0 {
      NoneActive(r'.active, i);
    }
    assert r'.kind == 2 && r'.lastChanged == i && r'.value[i] == v;
  }
}

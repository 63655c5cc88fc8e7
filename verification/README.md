# A verified model of the battle kernel

This project models the deterministic core of the battle runtime and proves properties of it in
Dafny: the two-mode 64-bit fixed-point number, the source-slot allocator of a property entry and the
modifier-owned contributions built on it, the turn timeline, the HP transition, the modifier life
cycle, the heal formula, the conversion of a 64-bit integer to binary32, and the ULEB128 code.
`dafny verify dfyconfig.toml` checks all of it.

## How it is laid out

| file | what it holds |
|---|---|
| `FixPoint.dfy`, `FixPointLaws.dfy` | a qword, the number it denotes, comparison and arithmetic; order, round trip, error bounds, monotonicity |
| `PropertyEntry.dfy` | the mutable entry (a class over parallel lists), each method proved against a function on records |
| `SlotLaws.dfy`, `FoldLaws.dfy` | invariants over every run of slot operations; what a materialized value depends on |
| `BattleState.dfy`, `PropertyRuntime.dfy` | the persistent state (a class with map fields) and the operations on entries and contribution records |
| `Ownership.dfy`, `Ledger.dfy`, `Erasure.dfy`, `LastChanged.dfy` | who owns which slot, the runtime seen without its slots, erasing a modifier, and what erasing does to the last-changed kind |
| `ModifyLaws.dfy` | what source-0 modifications and stacks do and return, in the numbers involved, and what they log |
| `BoundaryLaws.dfy` | the boundary log over runs of component, modifier, source-0 and HP writes |
| `Reference.dfy` | the simple property reference, and the slot runtime as a refinement of it |
| `TurnRuntime.dfy`, `TurnLaws.dfy`, `BoundedWaiting.dfy` | the turn protocol, one step of it, and bounded waiting over whole runs |
| `HpRuntime.dfy`, `HpLaws.dfy`, `HpNumbers.dfy` | the HP transition, its laws, and what SetHP and the dirty bound come to in the numbers they start from |
| `ModifierRuntime.dfy`, `ModifierLaws.dfy`, `StackingLaws.dfy` | match search, stacking tree, destroy, refresh and sweep; laws over runs; what hits and additions do, told by the fields |
| `Healing.dfy`, `Float32.dfy`, `Powers.dfy`, `Uleb128.dfy` | the three smaller numeric cores |
| `Instances.dfy` | inputs at which documented or expected behaviour fails, and small battles that only show that the hypotheses of the HP, turn and healing theorems can hold |
| `Wrappers.dfy` | `Option` and `Result` |

A raw qword may be spelled as a signed or an unsigned 64-bit integer, so `Raw` covers
[-2^63, 2^64). `Denote` gives the number a qword stands for in units of 2^-33; `Decode` gives the
count of 2^-26 on which arithmetic runs. A raw is on the grid (`OnGrid`) when its number is a whole
count of 2^-25: every EXTENDED qword, and a STANDARD one whose low eight bits are clear. Python's
`>>` and `//` floor, and so do Dafny's `/` and `%` for the positive divisors used here. Python's
exceptions are `Err` values; an operation that raises after it has written something leaves the same
partial state in the model.

Code that changes state in place is a class or a method with a `modifies` clause, and its `ensures`
ties the whole new state to a function of the old one. The laws are then proved about those
functions, over every run of them.

## Results that differ from the documentation

Each failure has a lemma at a concrete input (in `Instances.dfy` unless said otherwise) and a law with
the exact condition.

- `_next_instance_ordinal` is documented as never reusing an ordinal after removal. It does when the
  sweep removes the tail of a list: `OrdinalIsReused` shows one, `OrdinalsFreshIffTailKept` says
  exactly when it does not. What always holds is that ordinals strictly increase in every list
  (`RunKeepsOrder`).
- `modifier_match_search` documents that a state filter other than 0 and 1 matches nothing. In the
  code such a filter ignores the state, and only such a one does (`FilterIgnoresStateIff`,
  `OtherFiltersMatchAnyState`);
  `DyingMatchesUnderOtherFilter` shows a dying modifier found. The model follows the code.
- `PropertyEntry.create_empty` primes the cache with the base, but kinds 1 and 2 rebuild from the
  empty slot 0 (`FreshCacheDisagrees`). `FreshEntryInSync` says exactly when a fresh entry's cache
  agrees with a rebuild.
- The last-changed kind (2) keeps reading a popped contribution
  (`Erasure.LastChangedRemembersThePopped`). Erasing a modifier keeps what such an entry reads exactly
  when the last write to it is equal with and without that modifier's steps
  (`ErasureKeepsLastChangedIff`).
- Re-encoding a decoded result keeps its value but not always its bits (`ReencodingChangesBits`);
  `ReencodeKeepsValue` has the exact condition.
- The additive fold can depend on slot order (`OddBaseInstance`). For non-negative sources it does not
  exactly when the base is even, or the sources are all even or all odd, or the total saturates
  (`OrderFreeIff`).
- A stronger hit can leave more HP across the lock boundary (`StrongerHitLeavesMore`);
  `NextHpMonotone` has the exact condition.
- The log record of a spill into NegativeHP reports the total that was computed, which is not always
  what the entry then reads (`SpillBreaksHistory`). `RunTells` says exactly, from the entry before
  each hit, when the history of an entry is whole.

## Model

| member | source | states |
|---|---|---|
| FixPoint.Compare | src/hsr_battle_agent/battle_runtime/predicates.py:116-157 | The sign of the mixed-mode comparison is the order of the two denoted numbers, for all pairs of qwords |
| FixPoint.IsZero | src/hsr_battle_agent/battle_runtime/predicates.py:98-101 | The unsigned test finds exactly the qwords that denote zero |
| FixPoint.IsNegative | src/hsr_battle_agent/battle_runtime/predicates.py:104-107 | The sign-bit test finds exactly the negative numbers of both modes |
| FixPoint.IsPositive | src/hsr_battle_agent/battle_runtime/predicates.py:110-113 | The masked signed test finds exactly the positive numbers of both modes |
| FixPoint.FromInt32 | src/hsr_battle_agent/battle_runtime/predicates.py:41-53 | The bridge denotes the integer itself, across its own mode switch, and lands on the grid |
| FixPoint.Decode | src/hsr_battle_agent/battle_runtime/property.py:148-160 | Decoding floors the denoted number to a 64-bit count of 2^-26 |
| FixPoint.Encode | src/hsr_battle_agent/battle_runtime/property.py:163-184 | Decoding an encoding is saturation followed by rounding down to even; the result denotes just that and is on the grid |
| FixPointLaws.StrictWeakOrder | src/hsr_battle_agent/battle_runtime/predicates.py:56-95 | `fixpoint_less` is a strict weak order across modes with `fixpoint_equal` as its indifference |
| FixPointLaws.SignTrichotomy | src/hsr_battle_agent/battle_runtime/predicates.py:98-113 | Exactly one of the three sign tests holds and each agrees with comparing to zero |
| FixPointLaws.FromInt32Embeds | src/hsr_battle_agent/battle_runtime/predicates.py:41-53 | The int32 bridge embeds the order and equality of the integers |
| FixPointLaws.ReencodeKeepsValue | src/hsr_battle_agent/battle_runtime/property.py:148-184 | Encode after decode after encode equals encode in value always, and in bits if and only if rounding does not step down onto a small integer |
| FixPointLaws.AddError | src/hsr_battle_agent/battle_runtime/property.py:187-193 | An unsaturated sum loses at least 0 and less than 3 units of 2^-26 |
| FixPointLaws.SubtractError | src/hsr_battle_agent/battle_runtime/property.py:196-202 | An unsaturated difference is off by more than -1 and less than 2 units |
| FixPointLaws.MultiplyError | src/hsr_battle_agent/battle_runtime/property.py:205-210 | An unsaturated on-grid product loses at least 0 and less than 2 units |
| FixPointLaws.GridExact | src/hsr_battle_agent/battle_runtime/property.py:187-202 | On-grid sums and differences are exact until they saturate |
| FixPointLaws.AddMonotone | src/hsr_battle_agent/battle_runtime/property.py:187-193 | Addition is monotone in both arguments, saturation included |
| FixPointLaws.SubtractMonotone | src/hsr_battle_agent/battle_runtime/property.py:196-202 | Subtraction is monotone on the left and antitone on the right, saturation included |
| FixPointLaws.MultiplyMonotone | src/hsr_battle_agent/battle_runtime/property.py:205-210 | Multiplication by a non-negative number is monotone on either side, saturation included |
| FixPointLaws.NonNegativeResults | src/hsr_battle_agent/battle_runtime/property.py:187-210 | Sums and products of non-negative numbers, and differences of ordered ones, are not negative |
| PropertyEntries.FirstMin | src/hsr_battle_agent/battle_runtime/property.py:349-357 | The direction-A extremum is a least active value, and the first among equal ones |
| PropertyEntries.FirstMax | src/hsr_battle_agent/battle_runtime/property.py:359-367 | The direction-B extremum is a greatest active value, and the first among equal ones |
| PropertyEntries.FirstFree | src/hsr_battle_agent/battle_runtime/property.py:396-400 | The slot scan stops at the first inactive slot, past only active ones |
| PropertyEntries.PropertyEntry.FromRecord | src/hsr_battle_agent/battle_ir/property.py:317-335 | A loaded entry holds exactly the stored record |
| PropertyEntries.PropertyEntry.ActiveIndices | src/hsr_battle_agent/battle_runtime/property.py:287-288 | The index list gathers the active values in slot order |
| PropertyEntries.PropertyEntry.FoldActive | src/hsr_battle_agent/battle_runtime/property.py:325-338 | The accumulator loops compute the left fold of the active values from the base |
| PropertyEntries.PropertyEntry.SelectActive | src/hsr_battle_agent/battle_runtime/property.py:349-367 | The selection loops compute the first extremum, or the base when nothing is active |
| PropertyEntries.PropertyEntry.MaterializeByKind | src/hsr_battle_agent/battle_runtime/property.py:300-369 | The dispatch gives the specified value for every kind and refuses the unsupported ones |
| PropertyEntries.PropertyEntry.RebuildMaterialized | src/hsr_battle_agent/battle_runtime/property.py:372-382 | A rebuild updates only the cache, or fails and changes nothing |
| PropertyEntries.PropertyEntry.StampSlot | src/hsr_battle_agent/battle_runtime/property.py:406-413 | Writing a slot activates and stamps it and rebuilds; a failed rebuild leaves it written |
| PropertyEntries.PropertyEntry.AllocateSourceSlot | src/hsr_battle_agent/battle_runtime/property.py:385-414 | The whole new entry and the chosen slot of an allocation, on success and failure |
| PropertyEntries.PropertyEntry.UpdateSourceSlot | src/hsr_battle_agent/battle_runtime/property.py:417-433 | The whole new entry of an update, on success and failure |
| PropertyEntries.PropertyEntry.RemoveSourceSlot | src/hsr_battle_agent/battle_runtime/property.py:436-446 | The whole new entry of a removal; a no-op when no slot is active |
| SlotLaws.AllocateShape | src/hsr_battle_agent/battle_runtime/property.py:385-414 | Allocation succeeds if and only if a rebuild can, takes an inactive slot from index 1 upward, holds the value there, and moves nothing else |
| SlotLaws.UpdateShape | src/hsr_battle_agent/battle_runtime/property.py:417-433 | An update succeeds if and only if the slot exists and a rebuild can, and changes only that slot |
| SlotLaws.RemoveShape | src/hsr_battle_agent/battle_runtime/property.py:436-446 | When removal succeeds, exactly; it switches only that slot off and keeps its stale value |
| SlotLaws.SlotRefusals | src/hsr_battle_agent/battle_runtime/property.py:385-446 | Why an allocation, an update or a removal fails: the range, a post stage, or the kind |
| SlotLaws.WritesAreNumbered | src/hsr_battle_agent/battle_runtime/property.py:406-446 | A write takes the next number of the counter and puts it on its slot alone; a removal takes none and puts zero there |
| SlotLaws.StepKeeps | src/hsr_battle_agent/battle_runtime/property.py:385-446 | One slot operation keeps the stamping discipline and the cache in step, and never shrinks the lists |
| SlotLaws.RunKeeps | src/hsr_battle_agent/battle_runtime/property.py:372-446 | Over every run: active exactly when the generation is positive, positive generations distinct and not above the counter, extent the number of active slots, cache equal to a rebuild |
| SlotLaws.LengthBoundedByPeak | src/hsr_battle_agent/battle_runtime/property.py:395-404 | Slots are reused before the lists grow: the length is at most the initial one or one more than the peak number of simultaneously active contributions |
| SlotLaws.FreshEntryInSync | src/hsr_battle_agent/battle_ir/property.py:245-266 | A fresh entry's cache agrees with a rebuild if and only if its kind is neither 1 nor 2 or its base is 0 |
| SlotLaws.SlotZeroTracks | src/hsr_battle_agent/battle_runtime/property.py:315-323 | Kinds 1 and 2 read back the value just written to slot 0, and such a write never fails |
| FoldLaws.FoldAddClosedForm | src/hsr_battle_agent/battle_runtime/property.py:325-329 | Over non-negative sources from an even base the additive fold is the exact sum of even parts capped at 2^63-2 |
| FoldLaws.FoldAddExact | src/hsr_battle_agent/battle_runtime/property.py:325-329 | On the grid, with any signs, the additive fold is the exact sum while no running total saturates |
| FoldLaws.SameBagSameValue | src/hsr_battle_agent/battle_runtime/property.py:300-369 | Equal bags of active values materialize to equal numbers in whatever slots: extrema always, the additive fold over non-negative sources whenever it is free of order, and over on-grid sources of any sign whenever no running total saturates |
| FoldLaws.FoldAddOddBase | src/hsr_battle_agent/battle_runtime/property.py:325-329 | From an odd base the additive fold of non-negative sources is the capped sum of even parts, with the odd unit of the base kept only if the first source is odd |
| FoldLaws.OrderMattersIff | src/hsr_battle_agent/battle_runtime/property.py:325-329 | Two orders of the same non-negative sources fold to equal numbers if and only if the base is even, or their first sources have the same parity, or the total saturates |
| FoldLaws.OrderFreeIff | src/hsr_battle_agent/battle_runtime/property.py:325-329 | Every order of the sources folds to the same number if and only if the base is even, or all sources have the same parity, or the total saturates |
| FoldLaws.TwoSourcesSwapIff | src/hsr_battle_agent/battle_runtime/property.py:325-329 | The same condition for two sources, in their own counts |
| FoldLaws.FoldMultiplyError | src/hsr_battle_agent/battle_runtime/property.py:331-337 | Kind 4: while no product saturates, over sources that are not negative, the multiplicative fold never exceeds the exact product, and falls short of it by at most the slack of its steps: two counts of 2^-26 for each source, scaled by the sources after it |
| FoldLaws.NothingStoredReadsBase | src/hsr_battle_agent/battle_runtime/property.py:300-369 | An entry without slots reads its base under every supported kind |
| PropertyRuntime.ComponentStackSource | src/hsr_battle_agent/battle_runtime/property.py:640-677 | Allocates in a loaded entry, stores it and logs old and new value; nothing is stored or logged on failure |
| PropertyRuntime.UpdateContributionSource | src/hsr_battle_agent/battle_runtime/property.py:680-712 | The same for a slot update |
| PropertyRuntime.RemoveContributionSource | src/hsr_battle_agent/battle_runtime/property.py:715-746 | The same for a slot removal |
| PropertyRuntime.ModifySourceZeroUntransformed | src/hsr_battle_agent/battle_runtime/property.py:1014-1061 | The whole new state of a source-0 modification, with its four refusals in order |
| PropertyRuntime.StackPropertyContribution | src/hsr_battle_agent/battle_runtime/property.py:799-872 | The whole new state of a stack or refresh; a failing allocation leaves the new record list |
| PropertyRuntime.PopPropertyContributions | src/hsr_battle_agent/battle_runtime/property.py:875-901 | The whole new state of a pop; the records stay on a failure |
| ModifyLaws.ModifySucceedsIff | src/hsr_battle_agent/battle_runtime/property.py:1014-1061 | A source-0 modification succeeds if and only if the property is not one of the even ids 10 to 32 and its entry has a slot 0, no post stage and a supported kind |
| ModifyLaws.ModifyRefusals | src/hsr_battle_agent/battle_runtime/property.py:1014-1061 | Which refusal is given otherwise, in the order of the checks |
| ModifyLaws.ModifyMeaning | src/hsr_battle_agent/battle_runtime/property.py:213-246 | On an entry that reads its slot 0, function 2 changes the denoted value by exactly the operand (on the grid, unsaturated), 3 reads the product up to its error, 4 and 5 the lesser and the greater of the two, every other id the operand; no other entry changes |
| ModifyLaws.StackReturns | src/hsr_battle_agent/battle_runtime/property.py:808-872 | A dying modifier stacks nothing; a living one succeeds exactly where the entry can be rebuilt, and the returned slot is recorded for it, active and holds the value; a failure changes no entry and logs nothing |
| ModifyLaws.RefreshUpdatesFirst | src/hsr_battle_agent/battle_runtime/property.py:808-846 | A refresh updates the slot of the modifier's first record for the entry and no other |
| ModifyLaws.StackRecords | src/hsr_battle_agent/battle_runtime/property.py:799-872 | A living modifier's stack leaves it the list it had, or an empty one, with one record at the end for a newly allocated slot; nobody else's list changes |
| ModifyLaws.ChangesAreTagged | src/hsr_battle_agent/battle_runtime/property.py:640-746 | Each operation logs one record with its own operation, the slot, which is then active or not accordingly, and the value read before and after |
| ModifyLaws.PopIsTagged | src/hsr_battle_agent/battle_runtime/property.py:875-901 | A pop logs the removal of each recorded slot, in the order of the records |
| ModifyLaws.PopForgets | src/hsr_battle_agent/battle_runtime/property.py:875-901 | A pop changes the records of its own modifier only: it forgets them, or keeps them on a failure |
| Ownership.StackKeeps | src/hsr_battle_agent/battle_runtime/property.py:808-872 | A stack or refresh keeps the ownership invariant |
| Ownership.PopKeeps | src/hsr_battle_agent/battle_runtime/property.py:875-901 | On a sound state a pop never fails, keeps the invariant, and forgets exactly that modifier |
| Ownership.PopDisablesExactlyItsSlots | src/hsr_battle_agent/battle_runtime/property.py:875-901 | A pop switches off exactly the slots the modifier recorded and rewrites no value |
| Ownership.FreshStoreIsSound | src/hsr_battle_agent/battle_runtime/property.py:799-805 | Before anything is stacked the invariant holds |
| Ownership.RunIsSound | src/hsr_battle_agent/battle_runtime/property.py:385-446 | On every reachable state each record points at an active slot of index 1 or more, no two records share a slot, every active contribution slot has a record, and every entry is in step |
| Ledgers.StackRefines | src/hsr_battle_agent/battle_runtime/property.py:808-872 | Seen without slots, a stack adds one holding or rewrites the first for that entry |
| Ledgers.PopRefines | src/hsr_battle_agent/battle_runtime/property.py:875-901 | Seen without slots, a pop gives back all holdings of the modifier |
| Ledgers.SetRefines | src/hsr_battle_agent/battle_runtime/property.py:1014-1061 | Seen without slots, a source-0 set replaces the reserved value |
| Ledgers.RunRefinesLedger | src/hsr_battle_agent/battle_runtime/property.py:640-901 | Every run of the slot runtime refines the slotless ledger, also with one modifier and its steps left out |
| Erasure.ErasedModifierLeavesNoTrace | src/hsr_battle_agent/battle_runtime/property.py:808-901 | After any run that ends by popping modifier A, deleting all of A's steps gives the same state up to slot numbers: same bags of active values, same slot 0, same contributions of everybody else |
| Erasure.ErasedModifierKeepsEveryValue | src/hsr_battle_agent/battle_runtime/property.py:300-446 | So the materialized values are equal for kinds 1, 6 and 7, and for kind 3 over non-negative sources whenever its fold is free of order, or over on-grid sources of any sign whenever neither order saturates |
| Erasure.LastChangedRemembersThePopped | src/hsr_battle_agent/battle_runtime/property.py:319-323 | Kind 2 still reads the popped value after a stack and its pop |
| LastChanged.RunReadsLastWrite | src/hsr_battle_agent/battle_runtime/property.py:319-323 | After any run of stacks, refreshes, pops and source-0 modifications a kind-2 entry reads the last value the steps write to it, popped or not, and its old value when they write none |
| LastChanged.ErasureKeepsLastChangedIff | src/hsr_battle_agent/battle_runtime/property.py:808-901 | Erasing a popped modifier keeps what a kind-2 entry reads if and only if the last write is equal with and without that modifier's steps |
| LastChanged.OthersWroteLast | src/hsr_battle_agent/battle_runtime/property.py:808-901 | In particular when somebody else set the entry last, only a last write of the erased modifier survives its pop |
| BoundaryLaws.RunTells | src/hsr_battle_agent/battle_runtime/property.py:640-745 | Over any run of component, modifier, source-0 and HP writes, refused ones included, each entry's boundary records chain old to new and end at its current materialized value if and only if, before each hit that spills into it, the entry was one to read the total back |
| BoundaryLaws.WriteReadsBackIff | src/hsr_battle_agent/battle_runtime/hp.py:366-403 | A source-0 write makes the entry read the written value if and only if, of the entry before: its kind is 1 or 2; or 6 or 7 and no other active slot beats the value; or 3 or 4 and folding the other active values onto it gives it back |
| BoundaryLaws.HitTells | src/hsr_battle_agent/battle_runtime/hp.py:366-403 | A hit keeps the history whole if and only if it does not spill into the entry or the entry before the hit is one to read the total back |
| BoundaryLaws.AlwaysTold | src/hsr_battle_agent/battle_runtime/property.py:640-745 | So the history is always whole for every entry that is not a NegativeHP, and for a NegativeHP of kind 1 or 2 |
| BoundaryLaws.RunKeepsEntriesSound | src/hsr_battle_agent/battle_runtime/property.py:372-446 | Over any such run every entry stays well stamped and in step, direct component calls and HP writes included |
| Reference.ReadProperty | src/hsr_battle_agent/game_data/property_contribution_reference.py:50-56 | The read loop computes base plus all contributions to the property |
| Reference.SetIsSeen | src/hsr_battle_agent/game_data/property_contribution_reference.py:58-62 | A set is read back for its own pair and changes no other |
| Reference.RemoveIsSeen | src/hsr_battle_agent/game_data/property_contribution_reference.py:64-70 | A removal forgets its own pair and changes no other |
| Reference.RuntimeRefinesReference | src/hsr_battle_agent/game_data/property_contribution_reference.py:50-70 | After any run of refresh-style stacks, pops and source-0 sets from a fresh battle, contributions are those of the reference, and an on-grid unsaturated kind-3 entry reads exactly base plus contributions plus its own slot 0, when that is active |
| TurnRuntime.InitializeTurnTimeline | src/hsr_battle_agent/battle_runtime/turns.py:134-157 | The three checking loops refuse in order and install nothing, or install a ready timeline over just the given participants, who are distinct and all have a delay |
| TurnRuntime.AdvanceToNextActor | src/hsr_battle_agent/battle_runtime/turns.py:172-221 | The whole new state and result of an advance, a failure halfway included |
| TurnRuntime.AcknowledgeActionCompletion | src/hsr_battle_agent/battle_runtime/turns.py:224-255 | The whole new state of an acknowledgement and its refusals in order |
| TurnLaws.InitializedMayAdvance | src/hsr_battle_agent/battle_runtime/turns.py:134-157 | Initialization succeeds exactly for distinct participants that all have a delay, keeps their order, and leaves the clock ready to advance |
| TurnLaws.SortIsStable | src/hsr_battle_agent/battle_runtime/turns.py:160-185 | The sorted list is a permutation of the action list, sorted by denoted delay, with ties in their order |
| TurnLaws.StableSortIsUnique | src/hsr_battle_agent/battle_runtime/turns.py:160-185 | Any stable sort of distinct entities gives this very list, so it is the one Python's sort gives |
| TurnLaws.AdvanceLaw | src/hsr_battle_agent/battle_runtime/turns.py:172-221 | An advance succeeds, picks a least delay, takes it from everybody, touches nothing else, and leaves the actor at raw 0; it returns the actor's delay before the step, and the elapsed delay, order and turn index after it |
| TurnLaws.ClampNeverFires | src/hsr_battle_agent/battle_runtime/turns.py:183-193 | The negative clamp is never taken: for participants of whatever kinds the least delay can be taken from each without going negative |
| TurnLaws.AdvanceConservesDueTimes | src/hsr_battle_agent/battle_runtime/turns.py:172-221 | On the grid and unsaturated, elapsed plus remaining delay is unchanged for every participant |
| TurnLaws.TimelineUsableIff | src/hsr_battle_agent/battle_runtime/turns.py:80-114 | A timeline is usable if and only if it is there, lists somebody, nobody twice, and its elapsed delay is not negative |
| TurnLaws.ParticipatesIff | src/hsr_battle_agent/battle_runtime/turns.py:117-131 | An entity takes part if and only if it has a property 38 that does not read negative and has no post stage |
| TurnLaws.InitializeRefusals | src/hsr_battle_agent/battle_runtime/turns.py:134-157 | An initialization refuses nobody, duplicates, or somebody without a delay, in this order, and otherwise installs a ready timeline at zero without actor or provenance |
| TurnLaws.AdvanceRefusals | src/hsr_battle_agent/battle_runtime/turns.py:172-221 | A pending action blocks an advance, then a participant without a delay does; the state is unchanged |
| TurnLaws.AcknowledgeMeaning | src/hsr_battle_agent/battle_runtime/turns.py:224-255 | Only the pending action of the current actor is acknowledged, with a recharge that is not negative, and anything else changes nothing; then the recharge is the actor's delay, the action is settled with its provenance, and nothing else moves |
| BoundedWaiting.RoundLaw | src/hsr_battle_agent/battle_runtime/turns.py:172-255 | A round of advance and acknowledge always succeeds, everybody else loses the actor's delay and the actor gets the recharge |
| BoundedWaiting.WaitsAtMost | src/hsr_battle_agent/battle_runtime/turns.py:160-255 | From any state, an entity acts once the sum of the others' budgets is used up |
| BoundedWaiting.EveryoneActs | src/hsr_battle_agent/battle_runtime/turns.py:160-255 | With n on-grid delays and every recharge at least d, an entity with delay D acts within (n-1)(D/d+1)+1 rounds, however ties are broken |
| HpRuntime.TryGetLockHp | src/hsr_battle_agent/battle_runtime/hp.py:158-199 | The descending loop computes the specified lock value and action suffix |
| HpRuntime.WriteSlotZero | src/hsr_battle_agent/battle_runtime/hp.py:226-245 | A slot-0 write through a loaded entry, stored and logged together or not at all |
| HpRuntime.DirectDamageHpTransition | src/hsr_battle_agent/battle_runtime/hp.py:265-431 | The whole new state and result of a hit, with CurrentHP written even when NegativeHP is missing |
| HpRuntime.DirectChangeHpMode1Negative | src/hsr_battle_agent/battle_runtime/hp.py:456-496 | The whole new state and result of setting HP down, and the refusal of any other delta |
| HpLaws.LockScanMeaning | src/hsr_battle_agent/battle_runtime/hp.py:158-199 | The scan returns the last qualifying value and the forward actions from the earliest qualifying index after which all qualifying records agree with it, low-kind records in between included |
| HpLaws.LockFloorValue | src/hsr_battle_agent/battle_runtime/hp.py:304-333 | The lock floor denotes min(old HP, max(min(2, MaxHP), MaxHP * lock value)), the product being the rounded one |
| HpLaws.NextHpClosedForm | src/hsr_battle_agent/battle_runtime/hp.py:304-353 | Unlocked, the new HP is min(candidate, max(bound, 0)); a triggered lock gives min(floor, MaxHP), at least min(old, 2, MaxHP); never above MaxHP, never raised by a non-positive delta |
| HpLaws.NextHpMonotone | src/hsr_battle_agent/battle_runtime/hp.py:304-353 | The new HP is monotone in the delta if and only if the capped floor is not above the dirty ceiling where the two hits lie on different sides of the lock, in particular when the old HP is not above it |
| HpLaws.HitWrites | src/hsr_battle_agent/battle_runtime/hp.py:366-403 | A hit on kind-1 or kind-2 entries leaves CurrentHP at the new HP, adds just the overflow to NegativeHP, and changes no other entry |
| HpLaws.SetHpReachesTarget | src/hsr_battle_agent/battle_runtime/hp.py:434-496 | From on-grid HP not above the ceiling, setting HP lower always succeeds and reaches the target in value if and only if the lock does not trigger |
| HpNumbers.TargetRounds | src/hsr_battle_agent/battle_runtime/hp.py:434-446 | The SetHP target falls short of ModifyValue + MaxHP * ModifyRatio by at least 0 and less than two counts of 2^-26 |
| HpNumbers.BoundRounds | src/hsr_battle_agent/battle_runtime/hp.py:336-343 | The dirty bound exceeds MaxHP * (1 - DirtyHPRatio) by at least 0 and less than two counts |
| HpNumbers.UnlockedHp | src/hsr_battle_agent/battle_runtime/hp.py:304-353 | An unlocked hit leaves the candidate where that is not positive or below MaxHP * (1 - DirtyHPRatio), two counts aside; otherwise that bound within two counts, or zero where it is not positive |
| HpNumbers.SetHpReachesNumber | src/hsr_battle_agent/battle_runtime/hp.py:434-496 | Setting on-grid HP below its dirty ceiling lower always succeeds, and leaves ModifyValue + MaxHP * ModifyRatio within two counts if and only if the lock does not hold HP above that number |
| HpNumbers.SetHpRefusedIff | src/hsr_battle_agent/battle_runtime/hp.py:456-496 | SetHP is refused, and changes nothing, if and only if ModifyValue + MaxHP * ModifyRatio is not below the old HP |
| HpLaws.NoLockWithoutMaxHp | src/hsr_battle_agent/battle_runtime/hp.py:304-353 | Without positive MaxHP no lock stops a hit, and the new HP is the candidate below the bound, and otherwise the lesser of candidate and MaxHP |
| HpLaws.HitSucceedsIff | src/hsr_battle_agent/battle_runtime/hp.py:265-431 | A hit succeeds if and only if the mode is 0, CurrentHP and MaxHP are there, the dirty ratio is unless the lock stops the hit, CurrentHP can be written, and NegativeHP can if the hit spills over |
| HpLaws.HitRefusals | src/hsr_battle_agent/battle_runtime/hp.py:265-375 | An unsupported mode is refused first, then a missing CurrentHP, MaxHP or needed dirty ratio, then a CurrentHP that cannot be written, with its reason; the state is unchanged |
| HpLaws.HitReport | src/hsr_battle_agent/battle_runtime/hp.py:366-431 | What a hit reports: old, written and clamped HP, the lock, the spill, the boundary flag exactly for a clamped value not above zero, and the applied delta, which is the change of HP or, for a spill, the delta reversed |
| HpLaws.HitLogs | src/hsr_battle_agent/battle_runtime/hp.py:366-403 | A hit logs one change of slot 0 of CurrentHP, and then one of NegativeHP if it spills over; a hit that cannot write NegativeHP has written and logged CurrentHP, and any other failure leaves no trace |
| HpLaws.LedgerConserves | src/hsr_battle_agent/battle_runtime/hp.py:304-403 | Over any run of exactly stopped hits with the gate on, CurrentHP less NegativeHP changes by exactly the sum of the deltas |
| ModifierRuntime.NextOrdinal | src/hsr_battle_agent/battle_runtime/modifiers.py:168-178 | The next ordinal is zero for an empty list and one past the greatest otherwise |
| ModifierRuntime.ContainerFind | src/hsr_battle_agent/battle_runtime/modifiers.py:264-275 | The forward scan finds the first match |
| ModifierRuntime.FindIndex | src/hsr_battle_agent/battle_runtime/modifiers.py:264-275 | What is found matches and nothing before it does, and nothing matches when nothing is found |
| ModifierRuntime.ContainerIndexOf | src/hsr_battle_agent/battle_ir/modifiers.py:595-604 | The forward scan finds the first item with the reference |
| ModifierRuntime.Ascending | src/hsr_battle_agent/battle_runtime/modifiers.py:466-471 | The global search visits each entity once, in ascending order of id |
| ModifierRuntime.SearchOwners | src/hsr_battle_agent/battle_runtime/modifiers.py:556-563 | The search finds the first owner with a match, and its first match |
| ModifierRuntime.ApplyModifierInstance | src/hsr_battle_agent/battle_runtime/modifiers.py:181-201 | The bare append leaf, duplicates and all |
| ModifierRuntime.DestroyModifierInstance | src/hsr_battle_agent/battle_runtime/modifiers.py:295-325 | Marks a living instance for removal, leaves a dying one, refuses an absent one |
| ModifierRuntime.ProcessModifierRedd | src/hsr_battle_agent/battle_runtime/modifiers.py:406-433 | Replaces just the referenced instance by its refreshed self |
| ModifierRuntime.RemoveDirtyModifiers | src/hsr_battle_agent/battle_runtime/modifiers.py:328-347 | The backward deletion loop equals the stable filter of the items to keep |
| ModifierRuntime.TryAddModifierInstance | src/hsr_battle_agent/battle_runtime/modifiers.py:498-648 | The whole new registry and result of the stacking decision tree |
| ModifierLaws.KeptIsSubsequence | src/hsr_battle_agent/battle_runtime/modifiers.py:328-347 | The sweep keeps exactly the alive or guarded items, and keeps increasing ordinals increasing |
| ModifierLaws.KeptOfConcat | src/hsr_battle_agent/battle_runtime/modifiers.py:328-347 | The sweep commutes with concatenation: it looks at each item by itself and moves none |
| ModifierLaws.KeptIsIdempotent | src/hsr_battle_agent/battle_runtime/modifiers.py:328-347 | A second sweep changes nothing |
| ModifierLaws.RunKeepsOrder | src/hsr_battle_agent/battle_runtime/modifiers.py:168-647 | Along any run of add, append, destroy, refresh and sweep, ordinals strictly increase in every list and items are owned by the list's entity |
| ModifierLaws.RefFindsTheInstance | src/hsr_battle_agent/battle_ir/modifiers.py:595-604 | In such a list a search by reference finds the very instance it was taken from |
| ModifierLaws.OrdinalsFreshIffTailKept | src/hsr_battle_agent/battle_runtime/modifiers.py:168-178 | After a sweep the next ordinal is above every ordinal before it if and only if the tail was kept |
| ModifierLaws.RunKeepsOnePerEntity | src/hsr_battle_agent/battle_runtime/modifiers.py:498-648 | With one fixed match key per name and in-place stackings, no entity ever holds two live matches |
| ModifierLaws.RunKeepsOneGlobally | src/hsr_battle_agent/battle_runtime/modifiers.py:550-625 | With the two global-retention stackings, the whole battle never holds two live matches |
| ModifierLaws.LiveMatchesAreUnique | src/hsr_battle_agent/battle_runtime/modifiers.py:474-648 | The same as positions: from an empty registry two live matches are one place of one list |
| ModifierLaws.ProlongedLife | src/hsr_battle_agent/battle_runtime/modifiers.py:381-386 | A run of prolonging hits adds all lives; it is unlimited for good once it was, or one life is, or a running sum is the number that means unlimited |
| ModifierLaws.MergedLife | src/hsr_battle_agent/battle_runtime/modifiers.py:387-392 | A run of merging hits keeps the longest life, with the same rule |
| ModifierLaws.OrdinaryLives | src/hsr_battle_agent/battle_runtime/modifiers.py:381-392 | Among lives that are not negative unless unlimited the coincidence never happens |
| ModifierLaws.FilterIgnoresStateIff | src/hsr_battle_agent/battle_runtime/modifiers.py:244-249 | A state filter ignores the state if and only if it is neither 0 nor 1 |
| ModifierLaws.OtherFiltersMatchAnyState | src/hsr_battle_agent/battle_runtime/modifiers.py:223-261 | Under a filter other than 0 and 1 a modifier of any state matches if and only if its name does, and its flag, caster and provider where the key names one; that is, if and only if it would match alive |
| StackingLaws.FoundIff | src/hsr_battle_agent/battle_runtime/modifiers.py:223-275 | A search finds an item if and only if name, state as the filter asks, flag (unless 100), caster and provider (where named) agree, and no earlier item does, under every filter |
| StackingLaws.ReplacingHits | src/hsr_battle_agent/battle_runtime/modifiers.py:371-380 | After a run of hits under the five replacing stackings, life, previous life and count are those of the last hit |
| StackingLaws.LifetimeKeepingHits | src/hsr_battle_agent/battle_runtime/modifiers.py:393-394 | After hits that keep the lifetime both lives are as before and the count is the last one |
| StackingLaws.IdleHits | src/hsr_battle_agent/battle_runtime/modifiers.py:395-396 | Under the other stackings, prolonging and merging aside, no run of hits changes life, previous life or count |
| StackingLaws.HitsKeepTheRest | src/hsr_battle_agent/battle_runtime/modifiers.py:397-403 | Under every stacking the last-layer flag of a hit instance is set if and only if its layer reaches both 1 and its maximum, and all further fields stay |
| StackingLaws.DestroyMeaning | src/hsr_battle_agent/battle_runtime/modifiers.py:295-325 | Destroying raises the state of the first item with this name, owner and ordinal to at least 2 and changes nothing else; it is refused if and only if there is none |
| StackingLaws.ReddMeaning | src/hsr_battle_agent/battle_runtime/modifiers.py:406-433 | A refresh hits the first item so named once and changes nothing else, and is refused if and only if there is none |
| StackingLaws.ApplyMeaning | src/hsr_battle_agent/battle_runtime/modifiers.py:181-201 | The bare append adds the instance as given to one list, with the target as owner and the ordinal after the highest there |
| StackingLaws.SweepMeaning | src/hsr_battle_agent/battle_runtime/modifiers.py:328-347 | A sweep touches one list and keeps there exactly the items in state 1 or guarded, in increasing order if they were |
| StackingLaws.SearchMeaning | src/hsr_battle_agent/battle_runtime/modifiers.py:550-563 | An addition's search finds the first item in state 0 or 1 that agrees with the key, by ascending entity when the latest is retained and in the target's list otherwise, or none if there is none |
| StackingLaws.AddRefusedIff | src/hsr_battle_agent/battle_runtime/modifiers.py:526-540 | An addition is refused, and changes nothing, if and only if one of the three stackings by caster comes without a provider |
| StackingLaws.AddAppends | src/hsr_battle_agent/battle_runtime/modifiers.py:564-600 | When every living or to-be-added item of the name differs in caster, provider or flag where the key names one, or under Multiple, the new instance is appended alive with a fresh ordinal and the asked flag, caster and provider, and no item changes |
| StackingLaws.AddReplacesTwin | src/hsr_battle_agent/battle_runtime/modifiers.py:602-632 | When the latest is retained, the match (for the unique form, one that the target did not cast) is marked for removal and the instance appended, with the counts and the reference reported |
| StackingLaws.AddHitsTwin | src/hsr_battle_agent/battle_runtime/modifiers.py:634-647 | A match that stays is hit in place with the count and life of the addition, in whoever's list it is; one still to be added is left alone |
| Healing.TimesOne | src/hsr_battle_agent/battle_runtime/healing.py:78-80 | The final multiplication by one is an identity in value on every result of the arithmetic |
| Healing.AmountInValue | src/hsr_battle_agent/battle_runtime/healing.py:69-81 | The amount is the product where that is positive, and zero elsewhere |
| Healing.HealAntitone | src/hsr_battle_agent/battle_runtime/healing.py:69-81 | The amount is never negative and, with non-negative percentage and factor, antitone in current HP |
| Healing.FullTargetNeedsFlatPart | src/hsr_battle_agent/battle_runtime/healing.py:69-81 | A target at or above its maximum gets nothing without a positive flat part |
| Healing.HealError | src/hsr_battle_agent/battle_runtime/healing.py:69-77 | Unsaturated and on the grid, the product falls short of the exact formula by at least 0 and less than 2(1 + factor) units of 2^-26 |
| Float32.ConversionRounds | src/hsr_battle_agent/battle_runtime/values.py:289-321 | Every int64 converts to a finite binary32 nearest to it, ties to even, carry out of the significand included |
| Float32.ConversionMonotone | src/hsr_battle_agent/battle_runtime/values.py:289-321 | The conversion is monotone |
| Float32.ConversionExact | src/hsr_battle_agent/battle_runtime/values.py:289-321 | It is exact if and only if the integer has at most 24 significant bits, in particular up to 2^24 in magnitude, and if and only if some binary32 is the integer |
| Uleb128.DecodeUleb128 | tools/unpack/scan_vlq_strings.py:13-36 | The loop reads the value and length of the window's first encoding of at most the allowed bytes, or nothing |
| Uleb128.EncodeUleb128 | tools/unpack/scan_vlq_strings.py:39-50 | The loop writes the seven-bit groups, least significant first |
| Uleb128.DecodingMeaning | tools/unpack/scan_vlq_strings.py:13-36 | The decoder reads up to the first byte below 128 and returns the sum of the low seven bits of byte k times 2^(7k), or nothing if and only if no such byte is within its reach |
| Uleb128.RoundTrip | tools/unpack/scan_vlq_strings.py:13-50 | Decoding an encoding followed by any bytes gives value and length back if and only if the value has at most seven bits per allowed byte, and nothing otherwise |
| Uleb128.ScannerRoundTrip | tools/unpack/scan_vlq_strings.py:13-50 | With the scanner's five bytes that bound is 2^35 |
| Uleb128.AcceptedLength | tools/unpack/scan_vlq_strings.py:13-50 | No accepted encoding is shorter than the encoder's, and only the encoder's is as short |
| Uleb128.CanonicalIffMinimal | tools/unpack/scan_vlq_strings.py:197-199 | Among accepted encodings the re-encoding test passes exactly the minimal ones |
| Uleb128.CanonicalPrefix | tools/unpack/scan_vlq_strings.py:171-199 | What the scanner accepts at a position is the one number below 2^35 in the length range whose encoding starts there |
| Instances.ReencodingChangesBits | src/hsr_battle_agent/battle_runtime/property.py:148-184 | The encoding of 1 re-encodes to other bits |
| Instances.OddBaseInstance | src/hsr_battle_agent/battle_runtime/property.py:325-329 | From an odd base one pair of sources folds the same in both orders and another does not |
| Instances.FreshCacheDisagrees | src/hsr_battle_agent/battle_ir/property.py:245-266 | A fresh kind-1 entry whose cache a rebuild changes |
| Instances.StrongerHitLeavesMore | src/hsr_battle_agent/battle_runtime/hp.py:304-353 | A hit of -30 that leaves 75 where a hit of -10 leaves 50 |
| Instances.SpillBreaksHistory | src/hsr_battle_agent/battle_runtime/hp.py:265-403 | A hit whose spill reports 31 into an entry that then reads 32 breaks that entry's history |
| Instances.OrdinalIsReused | src/hsr_battle_agent/battle_runtime/modifiers.py:168-178 | A list whose next ordinal after a sweep was given out before |
| Instances.DyingMatchesUnderOtherFilter | src/hsr_battle_agent/battle_runtime/modifiers.py:244-249 | A dying modifier that matches under the filter 2 and not under 0 |

## Left out

- String keys: the persistent keys of entries and modifier references are the tuples they spell, so that distinct tuples have distinct keys is assumed and not proved.
- Type and bool checks, error text and trace summaries: only the kinds of refusal are kept, and the delay lookup's exceptions are one error.
- Snapshots, state dictionaries and JSON round trips of the state.
- HP boundary events: the record and lock-action events are fields of the result, not calls of a sink.
- Optional boundary sinks: the model always has one.
- Post stages: three flags that say whether each is null; a non-null one is refused, as in the code.
- Materialization kind 5 and damage modes other than 0: refused, as in the code.
- Kind 4 (multiplicative fold): no order law is claimed for it.
- Revival by `on_activate_modifier` is not a step of any run; component calls that bypass the ownership records are steps of the boundary-log runs only.
- Python's list sort: specified by insertion and shown to be the unique stable sort, not modelled as an algorithm.
- Decimal context precision and property names that contain the separator in the property reference.
- Source-0 modifications other than Set in the erasing and refinement runs, except for the last-changed kind: they read the materialized value, so what they write may depend on the modifier to be erased.
- Task executors, target selectors, the skill around the heal formula, the string part of the scanner and its report.
- The bit operations `|` and `&` on disjoint fields are written as sums and remainders.

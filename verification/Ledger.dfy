/** The slot runtime seen without its slots.

A ledger keeps, for every modifier, the list of (entry, value) pairs it contributes, and for
every entry the bag of active values.  Which slot a value sits in, generations, stale values and
slot reuse are all gone.  `LedgerApply` is the meaning of a step on ledgers, and the theorem of
this module is that the slot runtime refines it.  A ledger may leave out one modifier, together
with everything that modifier contributes; that modifier's own steps then do not change it.
 */
module Ledgers {
  import opened Wrappers
  import opened FixPoint
  import opened PropertyEntries
  import opened BattleStates
  import opened PropertyRuntime
  import opened SlotLaws
  import opened FoldLaws
  import opened Ownership

  datatype Holding = Holding(key: EntryKey, v: Raw)

  /** What never changes about an entry. */
  datatype Form = Form(kind: int, base: Raw, post: PostStages) {
    predicate Supported() {
      post.AllNull() && kind in {1, 2, 3, 4, 6, 7}
    }
  }

  /** The reserved slot: whether it is active, and its value either way. */
  datatype SlotZero = SlotZero(active: bool, v: Raw) {
    ghost function Bag(): multiset<Raw> {
      if active then multiset{v} else multiset{}
    }
  }

  datatype Ledger = Ledger(
    forms: map<EntryKey, Form>,
    holdings: map<ModifierRef, seq<Holding>>,
    bags: map<EntryKey, multiset<Raw>>,
    zero: map<EntryKey, SlotZero>)

  // -------------------------------------------------------------------------
  // Steps on ledgers
  // -------------------------------------------------------------------------

  ghost predicate Accepts(l: Ledger, key: EntryKey) {
    key in l.forms && l.forms[key].Supported() && key in l.bags && key in l.zero
  }

  function HoldingsOf(l: Ledger, m: ModifierRef): seq<Holding> {
    if m in l.holdings then l.holdings[m] else []
  }

  function FindHolding(hs: seq<Holding>, key: EntryKey): (found: Option<nat>)
    ensures found.Some? ==> found.value < |hs| && hs[found.value].key == key
  {
    if hs == [] then None
    else if hs[0].key == key then Some(0)
    else
      match FindHolding(hs[1..], key)
      case None => None
      case Some(i) => Some(i + 1)
  }

  /** In the bag of one entry, `old` makes room for `new`. */
  ghost function Exchange(l: Ledger, key: EntryKey, gone: multiset<Raw>, come: multiset<Raw>): Ledger {
    if key in l.bags then l.(bags := l.bags[key := l.bags[key] - gone + come]) else l
  }

  /** The ledger with a (possibly empty) list of holdings for `m`. */
  ghost function LedgerListed(l: Ledger, m: ModifierRef): Ledger {
    l.(holdings := l.holdings[m := HoldingsOf(l, m)])
  }

  /** The ledger with one more holding. */
  ghost function LedgerGain(l: Ledger, m: ModifierRef, h: Holding): Ledger
    requires m in l.holdings
  {
    Exchange(l, h.key, multiset{}, multiset{h.v}).(holdings := l.holdings[m := l.holdings[m] + [h]])
  }

  /** The ledger with one holding replaced. */
  ghost function LedgerRewrite(l: Ledger, m: ModifierRef, j: nat, h: Holding): Ledger
    requires m in l.holdings && j < |l.holdings[m]|
  {
    Exchange(l, h.key, multiset{l.holdings[m][j].v}, multiset{h.v})
      .(holdings := l.holdings[m := l.holdings[m][j := h]])
  }

  ghost function LedgerStackListed(l: Ledger, m: ModifierRef, key: EntryKey, v: Raw, isRefresh: bool): Ledger
    requires m in l.holdings
  {
    var found := FindHolding(l.holdings[m], key);
    if !Accepts(l, key) then l
    else if isRefresh && found.Some? then LedgerRewrite(l, m, found.value, Holding(key, v))
    else LedgerGain(l, m, Holding(key, v))
  }

  ghost function LedgerStack(l: Ledger, m: ModifierRef, key: EntryKey, v: Raw, isRefresh: bool): Ledger {
    LedgerStackListed(LedgerListed(l, m), m, key, v, isRefresh)
  }

  /** Give back the first holding of a modifier. */
  ghost function LedgerDrop(l: Ledger, m: ModifierRef): Ledger
    requires m in l.holdings && l.holdings[m] != []
  {
    var h := l.holdings[m][0];
    var l0 := l.(holdings := l.holdings[m := l.holdings[m][1..]]);
    Exchange(l0, h.key, multiset{h.v}, multiset{})
  }

  ghost function LedgerDropAll(l: Ledger, m: ModifierRef): Ledger
    requires m in l.holdings
    decreases |l.holdings[m]|
  {
    if l.holdings[m] == [] then l else LedgerDropAll(LedgerDrop(l, m), m)
  }

  ghost function LedgerPop(l: Ledger, m: ModifierRef): Ledger {
    if m !in l.holdings then l
    else
      var l' := LedgerDropAll(l, m);
      l'.(holdings := l'.holdings - {m})
  }

  ghost function LedgerSet(l: Ledger, key: EntryKey, v: Raw): Ledger {
    if key.property in SPECIAL_PROPERTIES || !Accepts(l, key) then l
    else
      Exchange(l, key, l.zero[key].Bag(), multiset{v}).(zero := l.zero[key := SlotZero(true, v)])
  }

  ghost function LedgerApply(l: Ledger, step: Step): Ledger {
    match step
    case Stack(m, stateRaw, key, v, isRefresh) => if stateRaw > ALIVE then l else LedgerStack(l, m, key, v, isRefresh)
    case Pop(m) => LedgerPop(l, m)
    case Modify(key, _, operand) => LedgerSet(l, key, operand)
  }

  // -------------------------------------------------------------------------
  // From stores to ledgers
  // -------------------------------------------------------------------------

  /** The activity of an entry's slots with those of modifier `a` switched off. */
  ghost function Foreign(s: Store, a: ModifierRef, key: EntryKey): (f: seq<bool>)
    requires key in s.entries
    ensures |f| == |s.entries[key].value|
    ensures forall i :: 0 <= i < |f| ==> (f[i] <==> s.entries[key].active[i] && !Recorded(s, a, key, i))
  {
    seq(|s.entries[key].active|, i requires 0 <= i < |s.entries[key].active| =>
      s.entries[key].active[i] && !Recorded(s, a, key, i))
  }

  ghost function ForeignBag(s: Store, a: ModifierRef, key: EntryKey): multiset<Raw>
    requires key in s.entries
  {
    BagOf(Foreign(s, a, key), s.entries[key].value)
  }

  ghost function Held(s: Store, c: Contribution): Holding {
    Holding(c.key, if c.key in s.entries && c.slot < |s.entries[c.key].value| then s.entries[c.key].value[c.slot] else 0)
  }

  ghost function HeldAll(s: Store, cs: seq<Contribution>): (hs: seq<Holding>)
    ensures |hs| == |cs|
    ensures forall j :: 0 <= j < |cs| ==> hs[j] == Held(s, cs[j])
  {
    seq(|cs|, j requires 0 <= j < |cs| => Held(s, cs[j]))
  }

  function FormOf(r: EntryRecord): Form {
    Form(r.kind, r.base, r.post)
  }

  function ZeroOf(r: EntryRecord): SlotZero {
    if r.value == [] then SlotZero(false, 0) else SlotZero(r.active[0], r.value[0])
  }

  /** `l` is the ledger of store `s` without modifier `a`. */
  ghost predicate Represents(s: Store, a: ModifierRef, l: Ledger) {
    FormsAgree(s, l.forms) && ZerosAgree(s, l.zero) && BagsAgree(s, a, l.bags) && HoldingsAgree(s, a, l.holdings)
  }

  ghost predicate FormsAgree(s: Store, forms: map<EntryKey, Form>) {
    && (forall key :: key in forms <==> key in s.entries)
    && (forall key :: key in s.entries ==> forms[key] == FormOf(s.entries[key]))
  }

  ghost predicate ZerosAgree(s: Store, zero: map<EntryKey, SlotZero>) {
    && (forall key :: key in zero <==> key in s.entries)
    && (forall key :: key in s.entries ==> zero[key] == ZeroOf(s.entries[key]))
  }

  ghost predicate BagsAgree(s: Store, a: ModifierRef, bags: map<EntryKey, multiset<Raw>>) {
    && (forall key :: key in bags <==> key in s.entries)
    && (forall key :: key in s.entries ==> bags[key] == ForeignBag(s, a, key))
  }

  ghost predicate HoldingsAgree(s: Store, a: ModifierRef, holdings: map<ModifierRef, seq<Holding>>) {
    && (forall m :: m in holdings <==> m in s.owned && m != a)
    && (forall m :: m in holdings ==> holdings[m] == HeldAll(s, s.owned[m]))
  }

  /** Every entry has its reserved slot 0, as freshly created entries do. */
  ghost predicate HasSlotZero(s: Store) {
    forall key :: key in s.entries ==> s.entries[key].value != []
  }

  // -------------------------------------------------------------------------
  // One slot changes
  // -------------------------------------------------------------------------

  /** From `s` to `t` only slot `i` of entry `key` changed. */
  ghost predicate Touched(s: Store, t: Store, key: EntryKey, i: nat) {
    && key in s.entries && (forall k :: k in t.entries <==> k in s.entries)
    && ChangesOnly(s.entries[key], t.entries[key], i)
    && (forall k :: k in s.entries && k != key ==> t.entries[k] == s.entries[k])
  }

  ghost predicate SameElsewhere(s: Store, t: Store, a: ModifierRef, key: EntryKey, i: nat) {
    forall k, j :: (k != key || j != i) ==> (Recorded(t, a, k, j) <==> Recorded(s, a, k, j))
  }

  /** What slot `i` of an entry puts into the bag, unless it belongs to modifier `a`. */
  ghost function ForeignSlot(s: Store, a: ModifierRef, key: EntryKey, i: nat): multiset<Raw>
    requires key in s.entries
  {
    var r := s.entries[key];
    if i < |r.value| && r.active[i] && !Recorded(s, a, key, i) then multiset{r.value[i]} else multiset{}
  }

  lemma TouchedBags(s: Store, t: Store, a: ModifierRef, key: EntryKey, i: nat)
    requires Touched(s, t, key, i) && SameElsewhere(s, t, a, key, i)
    ensures forall k :: k in s.entries && k != key ==> ForeignBag(t, a, k) == ForeignBag(s, a, k)
    ensures ForeignBag(t, a, key) == ForeignBag(s, a, key) - ForeignSlot(s, a, key, i) + ForeignSlot(t, a, key, i)
    ensures ForeignSlot(s, a, key, i) <= ForeignBag(s, a, key)
  {
    hide Recorded, BagOf;
    forall k | k in s.entries && k != key
      ensures ForeignBag(t, a, k) == ForeignBag(s, a, k)
    {
      assert Foreign(t, a, k) == Foreign(s, a, k);
    }
    TouchedEntryBag(s, t, a, key, i);
  }

  lemma TouchedEntryBag(s: Store, t: Store, a: ModifierRef, key: EntryKey, i: nat)
    requires Touched(s, t, key, i) && SameElsewhere(s, t, a, key, i)
    ensures ForeignBag(t, a, key) == ForeignBag(s, a, key) - ForeignSlot(s, a, key, i) + ForeignSlot(t, a, key, i)
    ensures ForeignSlot(s, a, key, i) <= ForeignBag(s, a, key)
  {
    hide Recorded, BagOf, SlotBag, DifferAt, Foreign, ForeignSlot;
    var f, f', w, w' := Foreign(s, a, key), Foreign(t, a, key), s.entries[key].value, t.entries[key].value;
    ForeignDiffers(s, t, a, key, i);
    ForeignSlotInBag(s, a, key, i);
    ForeignSlotInBag(t, a, key, i);
    SlotInBag(f, w, i);
    hide Touched, SameElsewhere;
    BagChange(f, w, f', w', i);
    SolveExchange(BagOf(f, w), BagOf(f', w'), SlotBag(f, w, i), SlotBag(f', w', i));
  }

  lemma ForeignDiffers(s: Store, t: Store, a: ModifierRef, key: EntryKey, i: nat)
    requires Touched(s, t, key, i) && SameElsewhere(s, t, a, key, i)
    ensures i < |t.entries[key].value|
    ensures DifferAt(Foreign(s, a, key), s.entries[key].value, Foreign(t, a, key), t.entries[key].value, i)
  {
    hide Recorded;
  }

  lemma ForeignSlotInBag(s: Store, a: ModifierRef, key: EntryKey, i: nat)
    requires key in s.entries
    ensures ForeignSlot(s, a, key, i) == SlotBag(Foreign(s, a, key), s.entries[key].value, i)
  {
    hide Recorded;
  }

  lemma RecordsAreSane(s: Store, m: ModifierRef)
    requires RecordsPoint(s) && m in s.owned
    ensures forall c :: c in s.owned[m] ==> Recorded(s, m, c.key, c.slot) && ValidRecord(s, m, c)
  {
    hide Supported;
    forall c | c in s.owned[m]
      ensures Recorded(s, m, c.key, c.slot) && ValidRecord(s, m, c)
    {
      var j :| 0 <= j < |s.owned[m]| && s.owned[m][j] == c;
      assert IsRecord(s, m, j) && PointsAt(s.owned[m][j], c.key, c.slot);
    }
  }

  /** Records that do not name the changed slot still hold what they held. */
  lemma OtherHoldings(s: Store, t: Store, key: EntryKey, i: nat, cs: seq<Contribution>)
    requires Touched(s, t, key, i)
    requires forall c :: c in cs ==> !PointsAt(c, key, i) && c.key in s.entries && c.slot < |s.entries[c.key].value|
    ensures HeldAll(t, cs) == HeldAll(s, cs)
  {
    forall j | 0 <= j < |cs|
      ensures Held(t, cs[j]) == Held(s, cs[j])
    {
      assert cs[j] in cs;
    }
  }

  lemma FormKept(r: EntryRecord, r': EntryRecord, i: nat)
    requires ChangesOnly(r, r', i) && r.value != []
    ensures r'.value != [] && FormOf(r') == FormOf(r)
    ensures i >= 1 ==> ZeroOf(r') == ZeroOf(r)
  {
  }

  lemma TouchedForms(s: Store, t: Store, key: EntryKey, i: nat, forms: map<EntryKey, Form>)
    requires Touched(s, t, key, i) && HasSlotZero(s) && FormsAgree(s, forms)
    ensures HasSlotZero(t) && FormsAgree(t, forms)
  {
    FormKept(s.entries[key], t.entries[key], i);
    hide ChangesOnly, FormOf, ZeroOf;
  }

  lemma TouchedZeros(s: Store, t: Store, key: EntryKey, i: nat, zero: map<EntryKey, SlotZero>)
    requires Touched(s, t, key, i) && HasSlotZero(s) && ZerosAgree(s, zero)
    ensures i >= 1 ==> ZerosAgree(t, zero)
    ensures ZerosAgree(t, zero[key := ZeroOf(t.entries[key])])
  {
    hide ChangesOnly, FormOf, ZeroOf, ZerosAgree;
    FormKept(s.entries[key], t.entries[key], i);
    ZeroReplaced(s, t, key, zero);
  }

  lemma ZeroReplaced(s: Store, t: Store, key: EntryKey, zero: map<EntryKey, SlotZero>)
    requires ZerosAgree(s, zero) && key in s.entries && (forall k :: k in t.entries <==> k in s.entries)
    requires forall k :: k in s.entries && k != key ==> t.entries[k] == s.entries[k]
    ensures ZerosAgree(t, zero[key := ZeroOf(t.entries[key])])
    ensures ZeroOf(t.entries[key]) == ZeroOf(s.entries[key]) ==> ZerosAgree(t, zero)
  {
    hide ZeroOf;
    forall k | k in t.entries
      ensures zero[key := ZeroOf(t.entries[key])][k] == ZeroOf(t.entries[k])
    {
      assert k != key ==> t.entries[k] == s.entries[k];
    }
  }

  /** How a touch of one entry shows in the bags. */
  lemma BagsTouched(s: Store, t: Store, a: ModifierRef, key: EntryKey, i: nat, bags: map<EntryKey, multiset<Raw>>,
                    gone: multiset<Raw>, come: multiset<Raw>)
    requires Touched(s, t, key, i) && SameElsewhere(s, t, a, key, i) && BagsAgree(s, a, bags)
    requires gone == ForeignSlot(s, a, key, i) && come == ForeignSlot(t, a, key, i)
    ensures key in bags && BagsAgree(t, a, bags[key := bags[key] - gone + come])
    ensures gone == multiset{} == come ==> BagsAgree(t, a, bags)
  {
    hide ForeignBag, ForeignSlot, ChangesOnly, SameElsewhere, BagsAgree;
    TouchedBags(s, t, a, key, i);
    BagReplaced(s, t, a, key, bags, ForeignBag(t, a, key));
    if gone == multiset{} == come {
      NothingExchanged(ForeignBag(s, a, key));
    }
  }

  lemma NothingExchanged(x: multiset<Raw>)
    ensures x - multiset{} + multiset{} == x
  {
  }

  lemma BagReplaced(s: Store, t: Store, a: ModifierRef, key: EntryKey, bags: map<EntryKey, multiset<Raw>>,
                    b: multiset<Raw>)
    requires BagsAgree(s, a, bags) && key in s.entries && (forall k :: k in t.entries <==> k in s.entries)
    requires forall k :: k in s.entries && k != key ==> ForeignBag(t, a, k) == ForeignBag(s, a, k)
    requires ForeignBag(t, a, key) == b
    ensures key in bags && bags[key] == ForeignBag(s, a, key)
    ensures BagsAgree(t, a, bags[key := b])
    ensures b == bags[key] ==> BagsAgree(t, a, bags)
  {
    hide ForeignBag;
    forall k | k in t.entries
      ensures bags[key := b][k] == ForeignBag(t, a, k)
    {
      assert k != key ==> bags[k] == ForeignBag(s, a, k);
    }
  }

  // -------------------------------------------------------------------------
  // A record is gained
  // -------------------------------------------------------------------------

  lemma GainedRecorded(s: Store, t: Store, m: ModifierRef, c: Contribution, a: ModifierRef)
    requires Gained(s, t, m, c) && RecordsPoint(s)
    ensures SameElsewhere(s, t, a, c.key, c.slot)
    ensures !Recorded(s, a, c.key, c.slot)
    ensures Recorded(t, a, c.key, c.slot) <==> a == m
  {
    hide Supported, RecordsPoint;
    GainedPoints(s, t, m, c);
    RecordsGained(s, t, m, c);
    hide Gained;
    forall k, i
      ensures Recorded(t, a, k, i) <==> Recorded(s, a, k, i) || (a == m && k == c.key && i == c.slot)
    {
      if Recorded(s, a, k, i) {
        var j :| IsRecord(s, a, j) && PointsAt(s.owned[a][j], k, i);
        assert IsRecord(t, a, j);
      }
      if Recorded(t, a, k, i) {
        var j :| IsRecord(t, a, j) && PointsAt(t.owned[a][j], k, i);
      }
      if a == m && k == c.key && i == c.slot {
        assert PointsAt(t.owned[m][|s.owned[m]|], k, i);
      }
    }
  }

  lemma GainedTouches(s: Store, t: Store, m: ModifierRef, c: Contribution)
    requires Gained(s, t, m, c)
    ensures Touched(s, t, c.key, c.slot)
  {
    hide Supported;
  }

  lemma GainedSlot(s: Store, t: Store, m: ModifierRef, c: Contribution, a: ModifierRef)
    requires Gained(s, t, m, c) && !Recorded(s, a, c.key, c.slot) && (Recorded(t, a, c.key, c.slot) <==> a == m)
    ensures ForeignSlot(s, a, c.key, c.slot) == multiset{}
    ensures ForeignSlot(t, a, c.key, c.slot) == if a == m then multiset{} else multiset{Held(t, c).v}
    ensures c.slot >= 1 && m in s.owned && t.owned == s.owned[m := s.owned[m] + [c]] && Held(t, c).key == c.key
  {
    hide Recorded, Supported;
  }

  lemma GainedHoldings(s: Store, t: Store, m: ModifierRef, c: Contribution, a: ModifierRef,
                       holdings: map<ModifierRef, seq<Holding>>)
    requires Gained(s, t, m, c) && RecordsPoint(s) && HoldingsAgree(s, a, holdings)
    ensures m == a ==> HoldingsAgree(t, a, holdings)
    ensures m != a ==> m in holdings && HoldingsAgree(t, a, holdings[m := holdings[m] + [Held(t, c)]])
  {
    hide Supported, RecordsPoint, Recorded, Held, ChangesOnly;
    GainedTouches(s, t, m, c);
    GainedPoints(s, t, m, c);
    forall m' | m' in s.owned
      ensures HeldAll(t, s.owned[m']) == HeldAll(s, s.owned[m'])
    {
      RecordsAreSane(s, m');
      OtherHoldings(s, t, c.key, c.slot, s.owned[m']);
    }
    assert HeldAll(t, t.owned[m]) == HeldAll(t, s.owned[m]) + [Held(t, c)];
  }

  lemma GainedLedger(s: Store, t: Store, m: ModifierRef, c: Contribution, a: ModifierRef, l: Ledger)
    requires Gained(s, t, m, c) && RecordsPoint(s) && HasSlotZero(s) && Represents(s, a, l)
    ensures HasSlotZero(t)
    ensures m == a ==> Represents(t, a, l)
    ensures m != a ==> m in l.holdings && Represents(t, a, LedgerGain(l, m, Held(t, c)))
  {
    hide Gained, FormsAgree, ZerosAgree, BagsAgree, HoldingsAgree, RecordsPoint, Touched, HasSlotZero, Held, FormOf, ZeroOf,
      SameElsewhere, ForeignSlot, Recorded;
    GainedTouches(s, t, m, c);
    GainedRecorded(s, t, m, c, a);
    GainedSlot(s, t, m, c, a);
    TouchedForms(s, t, c.key, c.slot, l.forms);
    TouchedZeros(s, t, c.key, c.slot, l.zero);
    BagsTouched(s, t, a, c.key, c.slot, l.bags, multiset{}, if a == m then multiset{} else multiset{Held(t, c).v});
    GainedHoldings(s, t, m, c, a, l.holdings);
  }

  // -------------------------------------------------------------------------
  // A record is lost
  // -------------------------------------------------------------------------

  lemma LostTouches(s: Store, t: Store, m: ModifierRef, c: Contribution)
    requires Lost(s, t, m, c) && RecordsPoint(s)
    ensures Touched(s, t, c.key, c.slot) && c.slot >= 1
    ensures m in s.owned && s.owned[m] != [] && s.owned[m][0] == c && t.owned == s.owned[m := s.owned[m][1..]]
  {
    hide Supported;
    assert IsRecord(s, m, 0) && ValidRecord(s, m, s.owned[m][0]);
  }

  lemma LostSlot(s: Store, t: Store, m: ModifierRef, c: Contribution, a: ModifierRef)
    requires Lost(s, t, m, c) && RecordsPoint(s) && (Recorded(s, a, c.key, c.slot) <==> a == m)
    ensures ForeignSlot(t, a, c.key, c.slot) == multiset{}
    ensures ForeignSlot(s, a, c.key, c.slot) == if a == m then multiset{} else multiset{Held(s, c).v}
    ensures Held(s, c).key == c.key
  {
    hide Recorded, Supported;
    assert IsRecord(s, m, 0) && ValidRecord(s, m, s.owned[m][0]);
  }

  lemma LostElsewhere(s: Store, t: Store, m: ModifierRef, c: Contribution, a: ModifierRef)
    requires Lost(s, t, m, c)
    ensures SameElsewhere(s, t, a, c.key, c.slot)
  {
    RecordsLost(s, t, m, c);
    assert PointsAt(s.owned[m][0], c.key, c.slot);
    hide Lost;
    forall k, i | k != c.key || i != c.slot
      ensures Recorded(t, a, k, i) <==> Recorded(s, a, k, i)
    {
      if Recorded(s, a, k, i) {
        var j :| IsRecord(s, a, j) && PointsAt(s.owned[a][j], k, i);
        assert PointsAt(t.owned[a][if a == m then j - 1 else j], k, i);
      }
    }
  }

  lemma LostRecorded(s: Store, t: Store, m: ModifierRef, c: Contribution, a: ModifierRef)
    requires Lost(s, t, m, c) && NoSharing(s)
    ensures SameElsewhere(s, t, a, c.key, c.slot)
    ensures Recorded(s, a, c.key, c.slot) <==> a == m
  {
    LostElsewhere(s, t, m, c, a);
    OnlyOwner(s, m, 0, a);
  }

  lemma OnlyOwner(s: Store, m: ModifierRef, j: int, a: ModifierRef)
    requires NoSharing(s) && IsRecord(s, m, j)
    ensures Recorded(s, a, s.owned[m][j].key, s.owned[m][j].slot) <==> a == m
  {
    var c := s.owned[m][j];
    assert PointsAt(c, c.key, c.slot);
    if Recorded(s, a, c.key, c.slot) {
      var i :| IsRecord(s, a, i) && PointsAt(s.owned[a][i], c.key, c.slot);
    }
  }

  lemma LostHoldings(s: Store, t: Store, m: ModifierRef, c: Contribution, a: ModifierRef,
                     holdings: map<ModifierRef, seq<Holding>>)
    requires Lost(s, t, m, c) && RecordsPoint(s) && NoSharing(s) && HoldingsAgree(s, a, holdings)
    ensures m == a ==> HoldingsAgree(t, a, holdings)
    ensures m != a ==> m in holdings && holdings[m] != [] && holdings[m][0] == Held(s, c)
    ensures m != a ==> HoldingsAgree(t, a, holdings[m := holdings[m][1..]])
  {
    LostTouches(s, t, m, c);
    LostPoints(s, t, m, c);
    forall m' | m' in t.owned
      ensures HeldAll(t, t.owned[m']) == HeldAll(s, t.owned[m'])
    {
      LostUnnamed(s, t, m, c, m');
      OtherHoldings(s, t, c.key, c.slot, t.owned[m']);
    }
    hide Supported, RecordsPoint, NoSharing, Recorded, Held, ChangesOnly, Lost, Touched;
    assert HeldAll(s, s.owned[m][1..]) == HeldAll(s, s.owned[m])[1..];
  }

  lemma LostUnnamed(s: Store, t: Store, m: ModifierRef, c: Contribution, m': ModifierRef)
    requires Lost(s, t, m, c) && RecordsPoint(t) && m' in t.owned
    ensures forall d :: d in t.owned[m'] ==>
      !PointsAt(d, c.key, c.slot) && d.key in s.entries && d.slot < |s.entries[d.key].value|
  {
    hide Supported, RecordsPoint;
    RecordsAreSane(t, m');
  }

  lemma LostLedger(s: Store, t: Store, m: ModifierRef, c: Contribution, a: ModifierRef, l: Ledger)
    requires Lost(s, t, m, c) && RecordsPoint(s) && NoSharing(s) && HasSlotZero(s) && Represents(s, a, l)
    ensures HasSlotZero(t)
    ensures m == a ==> Represents(t, a, l)
    ensures m != a ==> m in l.holdings && l.holdings[m] != [] && Represents(t, a, LedgerDrop(l, m))
  {
    hide Lost, FormsAgree, ZerosAgree, BagsAgree, HoldingsAgree, RecordsPoint, NoSharing, Touched, HasSlotZero, Held, FormOf, ZeroOf,
      SameElsewhere, ForeignSlot, Recorded;
    LostTouches(s, t, m, c);
    LostRecorded(s, t, m, c, a);
    LostSlot(s, t, m, c, a);
    TouchedForms(s, t, c.key, c.slot, l.forms);
    TouchedZeros(s, t, c.key, c.slot, l.zero);
    BagsTouched(s, t, a, c.key, c.slot, l.bags, if a == m then multiset{} else multiset{Held(s, c).v}, multiset{});
    LostHoldings(s, t, m, c, a, l.holdings);
  }

  // -------------------------------------------------------------------------
  // A recorded slot is rewritten
  // -------------------------------------------------------------------------

  /** `t` is `s` with `v` written through record `j` of `m`. */
  ghost predicate Rewritten(s: Store, t: Store, m: ModifierRef, j: nat, v: Raw) {
    && IsRecord(s, m, j) && t.owned == s.owned
    && var c := s.owned[m][j];
    && Touched(s, t, c.key, c.slot) && ValidRecord(s, m, c)
    && t.entries[c.key].active[c.slot] && t.entries[c.key].value[c.slot] == v
  }

  lemma RefreshRewrites(s: Store, m: ModifierRef, j: nat, v: Raw)
    requires Sound(s) && IsRecord(s, m, j)
    ensures var c := s.owned[m][j];
      UpdateSource(s, c.key, c.slot, v).Ok? && Rewritten(s, UpdateSource(s, c.key, c.slot, v).value, m, j, v)
  {
    hide Update, Supported, WellStamped, InSync;
    RefreshWrites(s, m, j, v);
    var c := s.owned[m][j];
    UpdateShape(s.entries[c.key], c.slot, v);
    assert ValidRecord(s, m, c);
  }

  lemma SameRecorded(s: Store, t: Store, a: ModifierRef)
    requires t.owned == s.owned
    ensures forall k, i :: Recorded(t, a, k, i) <==> Recorded(s, a, k, i)
  {
    forall k, i
      ensures Recorded(t, a, k, i) <==> Recorded(s, a, k, i)
    {
      assert forall j :: IsRecord(t, a, j) <==> IsRecord(s, a, j);
      if Recorded(s, a, k, i) {
        var j :| IsRecord(s, a, j) && PointsAt(s.owned[a][j], k, i);
        assert PointsAt(t.owned[a][j], k, i);
      }
    }
  }

  lemma RewrittenSlot(s: Store, t: Store, m: ModifierRef, j: nat, v: Raw, a: ModifierRef)
    requires Rewritten(s, t, m, j, v) && NoSharing(s)
    ensures var c := s.owned[m][j];
      && m in s.owned && 0 <= j < |s.owned[m]|
      && SameElsewhere(s, t, a, c.key, c.slot) && c.slot >= 1 && Touched(s, t, c.key, c.slot) && t.owned == s.owned
      && ForeignSlot(s, a, c.key, c.slot) == (if a == m then multiset{} else multiset{Held(s, c).v})
      && ForeignSlot(t, a, c.key, c.slot) == (if a == m then multiset{} else multiset{v})
  {
    SameRecorded(s, t, a);
    OnlyOwner(s, m, j, a);
    hide Recorded, Supported, NoSharing;
  }

  lemma RewrittenHoldings(s: Store, t: Store, m: ModifierRef, j: nat, v: Raw, a: ModifierRef,
                          holdings: map<ModifierRef, seq<Holding>>)
    requires Rewritten(s, t, m, j, v) && RecordsPoint(s) && NoSharing(s) && HoldingsAgree(s, a, holdings)
    ensures m in s.owned && j < |s.owned[m]|
    ensures m == a ==> HoldingsAgree(t, a, holdings)
    ensures m != a ==> m in holdings && j < |holdings[m]|
    ensures m != a ==> HoldingsAgree(t, a, holdings[m := holdings[m][j := Holding(s.owned[m][j].key, v)]])
  {
    var c := s.owned[m][j];
    forall m', i | m' in s.owned && 0 <= i < |s.owned[m']|
      ensures Held(t, s.owned[m'][i]) == if m' == m && i == j then Holding(c.key, v) else Held(s, s.owned[m'][i])
    {
      RewrittenRecord(s, t, m, j, v, m', i);
    }
    hide RecordsPoint, NoSharing, Held, Touched, ValidRecord;
    forall m' | m' in s.owned && m' != m
      ensures HeldAll(t, s.owned[m']) == HeldAll(s, s.owned[m'])
    {
    }
    assert HeldAll(t, s.owned[m]) == HeldAll(s, s.owned[m])[j := Holding(c.key, v)];
  }

  lemma RewrittenRecord(s: Store, t: Store, m: ModifierRef, j: nat, v: Raw, m': ModifierRef, i: nat)
    requires Rewritten(s, t, m, j, v) && RecordsPoint(s) && NoSharing(s) && m' in s.owned && i < |s.owned[m']|
    ensures m in s.owned && j < |s.owned[m]|
    ensures Held(t, s.owned[m'][i]) ==
      if m' == m && i == j then Holding(s.owned[m][j].key, v) else Held(s, s.owned[m'][i])
  {
    hide Supported;
    assert IsRecord(s, m', i) && IsRecord(s, m, j) && ValidRecord(s, m', s.owned[m'][i]);
  }

  lemma RewrittenLedger(s: Store, t: Store, m: ModifierRef, j: nat, v: Raw, a: ModifierRef, l: Ledger)
    requires Rewritten(s, t, m, j, v) && RecordsPoint(s) && NoSharing(s) && HasSlotZero(s) && Represents(s, a, l)
    ensures HasSlotZero(t)
    ensures m == a ==> Represents(t, a, l)
    ensures m in s.owned && j < |s.owned[m]|
    ensures m != a ==> m in l.holdings && j < |l.holdings[m]|
    ensures m != a ==> Represents(t, a, LedgerRewrite(l, m, j, Holding(s.owned[m][j].key, v)))
  {
    hide Rewritten, FormsAgree, ZerosAgree, BagsAgree, RecordsPoint, NoSharing, Touched, HasSlotZero, Held, FormOf, ZeroOf,
      SameElsewhere, ForeignSlot, Recorded;
    RewrittenSlot(s, t, m, j, v, a);
    var c := s.owned[m][j];
    TouchedForms(s, t, c.key, c.slot, l.forms);
    TouchedZeros(s, t, c.key, c.slot, l.zero);
    BagsTouched(s, t, a, c.key, c.slot, l.bags,
                if a == m then multiset{} else multiset{Held(s, c).v}, if a == m then multiset{} else multiset{v});
    RewrittenHoldings(s, t, m, j, v, a, l.holdings);
    if m != a {
      assert l.holdings[m] == HeldAll(s, s.owned[m]);
    }
    hide HoldingsAgree;
  }

  // -------------------------------------------------------------------------
  // Operations refine their ledger steps
  // -------------------------------------------------------------------------

  lemma {:induction false} FindAgrees(s: Store, cs: seq<Contribution>, key: EntryKey)
    ensures FindHolding(HeldAll(s, cs), key) == FindRecord(cs, key)
  {
    hide Held;
    if cs != [] {
      assert Held(s, cs[0]).key == cs[0].key by { HeldKey(s, cs[0]); }
      assert HeldAll(s, cs)[1..] == HeldAll(s, cs[1..]);
      FindAgrees(s, cs[1..], key);
    }
  }

  lemma HeldKey(s: Store, c: Contribution)
    ensures Held(s, c).key == c.key
  {
  }

  lemma AcceptsAgrees(s: Store, a: ModifierRef, l: Ledger, key: EntryKey)
    requires Represents(s, a, l)
    ensures Accepts(l, key) <==> key in s.entries && Supported(s.entries[key])
    ensures key in l.bags <==> key in s.entries
  {
    hide HoldingsAgree, ForeignBag, ZeroOf;
  }

  lemma SameBags(s: Store, t: Store, a: ModifierRef, bags: map<EntryKey, multiset<Raw>>)
    requires BagsAgree(s, a, bags) && t.entries == s.entries
    requires forall k, i :: Recorded(t, a, k, i) <==> Recorded(s, a, k, i)
    ensures BagsAgree(t, a, bags)
  {
    hide Recorded, BagOf;
    forall key | key in s.entries
      ensures ForeignBag(t, a, key) == ForeignBag(s, a, key)
    {
      assert Foreign(t, a, key) == Foreign(s, a, key);
    }
  }

  lemma OtherRecords(s: Store, t: Store, cs: seq<Contribution>)
    requires t.entries == s.entries
    ensures HeldAll(t, cs) == HeldAll(s, cs)
  {
  }

  /** Entries stay, and each record list stays, is new and empty, or goes. */
  lemma SameEntries(s: Store, t: Store, a: ModifierRef, l: Ledger, holdings: map<ModifierRef, seq<Holding>>)
    requires Represents(s, a, l) && HasSlotZero(s) && t.entries == s.entries
    requires forall k, i :: Recorded(t, a, k, i) <==> Recorded(s, a, k, i)
    requires forall m :: m in holdings <==> m in t.owned && m != a
    requires forall m :: m in holdings ==>
      if m in l.holdings then holdings[m] == l.holdings[m] && t.owned[m] == s.owned[m]
      else holdings[m] == [] && t.owned[m] == []
    ensures HasSlotZero(t) && Represents(t, a, l.(holdings := holdings))
  {
    hide Recorded, BagsAgree, FormOf, ZeroOf, Held;
    SameBags(s, t, a, l.bags);
    forall m | m in holdings
      ensures holdings[m] == HeldAll(t, t.owned[m])
    {
      OtherRecords(s, t, t.owned[m]);
    }
  }

  lemma ListedRecorded(s: Store, a: ModifierRef, m: ModifierRef)
    ensures var t := Listed(s, m);
      forall k, i :: Recorded(t, a, k, i) <==> Recorded(s, a, k, i)
  {
    var t := Listed(s, m);
    assert forall j :: IsRecord(t, a, j) <==> IsRecord(s, a, j);
    forall k, i
      ensures Recorded(t, a, k, i) <==> Recorded(s, a, k, i)
    {
      if Recorded(s, a, k, i) {
        var j :| IsRecord(s, a, j) && PointsAt(s.owned[a][j], k, i);
        assert IsRecord(t, a, j);
      }
    }
  }

  /** Giving a modifier its (possibly empty) record list is seen in the ledger as just that. */
  lemma ListedLedger(s: Store, t: Store, a: ModifierRef, l: Ledger, m: ModifierRef)
    requires Represents(s, a, l) && HasSlotZero(s) && t == Listed(s, m)
    ensures HasSlotZero(t) && Represents(t, a, if m == a then l else LedgerListed(l, m))
  {
    hide Recorded, HasSlotZero, Represents;
    ListedRecorded(s, a, m);
    ListedExactly(s, a, l);
    var holdings := if m == a then l.holdings else l.holdings[m := HoldingsOf(l, m)];
    SameEntries(s, t, a, l, holdings);
  }

  lemma ListedExactly(s: Store, a: ModifierRef, l: Ledger)
    requires Represents(s, a, l)
    ensures forall m :: m in l.holdings <==> m in s.owned && m != a
  {
    hide FormsAgree, ZerosAgree, BagsAgree;
  }

  lemma RefreshRefines(s: Store, a: ModifierRef, l: Ledger, m: ModifierRef, j: nat, v: Raw)
    requires Sound(s) && HasSlotZero(s) && Represents(s, a, l) && IsRecord(s, m, j)
    ensures var c := s.owned[m][j];
      && UpdateSource(s, c.key, c.slot, v).Ok?
      && var t := UpdateSource(s, c.key, c.slot, v).value;
      && HasSlotZero(t)
      && (m == a ==> Represents(t, a, l))
      && (m != a ==> m in l.holdings && j < |l.holdings[m]|
                     && Represents(t, a, LedgerRewrite(l, m, j, Holding(c.key, v))))
  {
    hide Represents, HasSlotZero, Update, EntriesSound;
    RefreshRewrites(s, m, j, v);
    var c := s.owned[m][j];
    RewrittenLedger(s, UpdateSource(s, c.key, c.slot, v).value, m, j, v, a, l);
  }

  lemma AllocationRefines(s: Store, a: ModifierRef, l: Ledger, m: ModifierRef, key: EntryKey, v: Raw)
    requires Sound(s) && HasSlotZero(s) && Represents(s, a, l) && m in s.owned
    requires key in s.entries && Supported(s.entries[key])
    ensures StackSource(s, key, v).Ok?
    ensures var (s1, slot) := StackSource(s, key, v).value;
      var t := s1.(owned := s1.owned[m := s.owned[m] + [Contribution(m, key, slot)]]);
      && HasSlotZero(t)
      && (m == a ==> Represents(t, a, l))
      && (m != a ==> m in l.holdings && Represents(t, a, LedgerGain(l, m, Holding(key, v))))
  {
    hide Represents, HasSlotZero, Allocate, EntriesSound, NoSharing, NoOrphans, Supported;
    AllocateKeeps(s, m, key, v);
    var (s1, slot) := StackSource(s, key, v).value;
    var c := Contribution(m, key, slot);
    var t := s1.(owned := s1.owned[m := s.owned[m] + [c]]);
    GainedLedger(s, t, m, c, a, l);
    HeldNow(s, t, m, c);
  }

  lemma HeldNow(s: Store, t: Store, m: ModifierRef, c: Contribution)
    requires Gained(s, t, m, c)
    ensures Held(t, c) == Holding(c.key, t.entries[c.key].value[c.slot])
  {
    hide Supported;
  }

  lemma StackListedRefines(s: Store, a: ModifierRef, l: Ledger, m: ModifierRef, key: EntryKey, v: Raw, isRefresh: bool)
    requires Sound(s) && HasSlotZero(s) && Represents(s, a, l) && m in s.owned
    ensures var t := StackListed(s, m, key, v, isRefresh).0;
      && HasSlotZero(t)
      && (m == a ==> Represents(t, a, l))
      && (m != a ==> m in l.holdings && Represents(t, a, LedgerStackListed(l, m, key, v, isRefresh)))
  {
    hide HasSlotZero, Sound, Supported, StackSource, UpdateSource, Accepts, LedgerGain, LedgerRewrite,
      FormsAgree, ZerosAgree, BagsAgree, HeldAll;
    AcceptsAgrees(s, a, l, key);
    FindAgrees(s, s.owned[m], key);
    var found := FindRecord(s.owned[m], key);
    if isRefresh && found.Some? {
      RefreshRefines(s, a, l, m, found.value, v);
      RecordSupported(s, m, found.value);
    } else if key in s.entries && Supported(s.entries[key]) {
      AllocationRefines(s, a, l, m, key, v);
    } else {
      Unacceptable(s, key, v);
    }
  }

  lemma RecordSupported(s: Store, m: ModifierRef, j: nat)
    requires Sound(s) && IsRecord(s, m, j)
    ensures s.owned[m][j].key in s.entries && Supported(s.entries[s.owned[m][j].key])
  {
    hide Supported;
    assert ValidRecord(s, m, s.owned[m][j]);
  }

  lemma Unacceptable(s: Store, key: EntryKey, v: Raw)
    requires key in s.entries ==> !Supported(s.entries[key])
    ensures StackSource(s, key, v).Err?
  {
    hide Supported, Allocate;
    if key in s.entries {
      AllocateShape(s.entries[key], v);
    }
  }

  lemma StackRefines(s: Store, a: ModifierRef, l: Ledger, m: ModifierRef, stateRaw: int, key: EntryKey, v: Raw,
                     isRefresh: bool)
    requires Sound(s) && HasSlotZero(s) && Represents(s, a, l)
    ensures var t := StackContribution(s, m, stateRaw, key, v, isRefresh).0;
      HasSlotZero(t) && Represents(t, a, if m == a || stateRaw > ALIVE then l else LedgerStack(l, m, key, v, isRefresh))
  {
    hide Represents, HasSlotZero, Sound, StackListed, LedgerStackListed;
    if stateRaw <= ALIVE {
      ListedLedger(s, Listed(s, m), a, l, m);
      EmptyListKeeps(s, m);
      StackListedRefines(Listed(s, m), a, if m == a then l else LedgerListed(l, m), m, key, v, isRefresh);
    }
  }

  lemma {:induction false} DropAllRefines(s: Store, a: ModifierRef, l: Ledger, m: ModifierRef)
    requires Sound(s) && HasSlotZero(s) && Represents(s, a, l) && m in s.owned
    ensures HasSlotZero(DropAll(s, m))
    ensures m == a ==> Represents(DropAll(s, m), a, l)
    ensures m != a ==> m in l.holdings && Represents(DropAll(s, m), a, LedgerDropAll(l, m))
    decreases |s.owned[m]|
  {
    hide HasSlotZero, EntriesSound, NoOrphans, LedgerDrop, RecordsPoint, NoSharing, Supported, Remove, FormsAgree, ZerosAgree, BagsAgree;
    if s.owned[m] != [] {
      DropFirstKeeps(s, m);
      var t := DropFirst(s, m);
      LostLedger(s, t, m, s.owned[m][0], a, l);
      DropAllRefines(t, a, if m == a then l else LedgerDrop(l, m), m);
    }
  }

  /** Forgetting an empty record list. */
  lemma ForgetRefines(s: Store, a: ModifierRef, l: Ledger, m: ModifierRef)
    requires HasSlotZero(s) && Represents(s, a, l) && m in s.owned && s.owned[m] == []
    ensures var t := s.(owned := s.owned - {m});
      HasSlotZero(t) && Represents(t, a, if m == a then l else l.(holdings := l.holdings - {m}))
  {
    var t := s.(owned := s.owned - {m});
    forall k, i
      ensures Recorded(t, a, k, i) <==> Recorded(s, a, k, i)
    {
      ForgetRecorded(s, t, a, m, k, i);
    }
    ListedExactly(s, a, l);
    hide Recorded, HasSlotZero, Represents;
    SameEntries(s, t, a, l, if m == a then l.holdings else l.holdings - {m});
  }

  lemma ForgetRecorded(s: Store, t: Store, a: ModifierRef, m: ModifierRef, k: EntryKey, i: int)
    requires m in s.owned && s.owned[m] == [] && t == s.(owned := s.owned - {m})
    ensures Recorded(t, a, k, i) <==> Recorded(s, a, k, i)
  {
    if Recorded(s, a, k, i) {
      var j :| IsRecord(s, a, j) && PointsAt(s.owned[a][j], k, i);
      assert IsRecord(t, a, j);
    }
    if Recorded(t, a, k, i) {
      var j :| IsRecord(t, a, j) && PointsAt(t.owned[a][j], k, i);
      assert IsRecord(s, a, j);
    }
  }

  lemma {:induction false} LedgerDropAllEmpties(l: Ledger, m: ModifierRef)
    requires m in l.holdings
    ensures m in LedgerDropAll(l, m).holdings && LedgerDropAll(l, m).holdings[m] == []
    decreases |l.holdings[m]|
  {
    if l.holdings[m] != [] {
      LedgerDropAllEmpties(LedgerDrop(l, m), m);
    }
  }

  lemma PopRefines(s: Store, a: ModifierRef, l: Ledger, m: ModifierRef)
    requires Sound(s) && HasSlotZero(s) && Represents(s, a, l)
    ensures var t := PopContributions(s, m).0;
      HasSlotZero(t) && Represents(t, a, if m == a then l else LedgerPop(l, m))
  {
    hide HasSlotZero, Sound, Represents, LedgerDropAll, PopContributions, DropAll;
    ListedExactly(s, a, l);
    PopKeeps(s, m);
    if m in s.owned {
      DropAllKeeps(s, m);
      DropAllRefines(s, a, l, m);
      var t := DropAll(s, m);
      ForgetRefines(t, a, if m == a then l else LedgerDropAll(l, m), m);
      assert t.owned - {m} == s.owned - {m};
    } else {
      PopNothing(s, m);
    }
  }

  /** A modify function that stores its operand whatever the old value was. */
  predicate IsSet(step: Step) {
    step.Modify? ==> step.functionId !in {2, 3, 4, 5}
  }

  lemma ZeroSlot(s: Store, t: Store, a: ModifierRef, key: EntryKey)
    requires RecordsPoint(s) && Touched(s, t, key, 0) && t.owned == s.owned && t.entries[key].active[0]
    requires s.entries[key].value != []
    ensures ForeignSlot(s, a, key, 0) == ZeroOf(s.entries[key]).Bag()
    ensures ForeignSlot(t, a, key, 0) == multiset{t.entries[key].value[0]}
    ensures SameElsewhere(s, t, a, key, 0)
  {
    SameRecorded(s, t, a);
    forall j | IsRecord(s, a, j)
      ensures !PointsAt(s.owned[a][j], key, 0)
    {
      assert ValidRecord(s, a, s.owned[a][j]);
    }
    assert !Recorded(s, a, key, 0);
    hide Recorded, Supported, RecordsPoint;
  }

  lemma ZeroHoldings(s: Store, t: Store, a: ModifierRef, key: EntryKey, holdings: map<ModifierRef, seq<Holding>>)
    requires RecordsPoint(s) && Touched(s, t, key, 0) && t.owned == s.owned && HoldingsAgree(s, a, holdings)
    ensures HoldingsAgree(t, a, holdings)
  {
    hide Supported, RecordsPoint, Touched, Recorded;
    forall m | m in s.owned
      ensures HeldAll(t, s.owned[m]) == HeldAll(s, s.owned[m])
    {
      RecordsAreSane(s, m);
      OtherHoldings(s, t, key, 0, s.owned[m]);
    }
  }

  lemma ZeroLedger(s: Store, t: Store, a: ModifierRef, key: EntryKey, l: Ledger, v: Raw)
    requires RecordsPoint(s) && HasSlotZero(s) && Represents(s, a, l) && key.property !in SPECIAL_PROPERTIES
    requires key in s.entries && key in t.entries && t.entries[key].value != [] && Supported(s.entries[key])
    requires Touched(s, t, key, 0) && t.owned == s.owned && t.entries[key].active[0] && t.entries[key].value[0] == v
    ensures HasSlotZero(t) && Represents(t, a, LedgerSet(l, key, v))
  {
    hide FormsAgree, ZerosAgree, BagsAgree, HoldingsAgree, RecordsPoint, Touched, HasSlotZero, FormOf, ZeroOf, SameElsewhere,
      ForeignSlot, Recorded, Accepts, Supported;
    AcceptsAgrees(s, a, l, key);
    ZeroAgrees(s, a, l, key);
    ZeroSlot(s, t, a, key);
    TouchedForms(s, t, key, 0, l.forms);
    TouchedZeros(s, t, key, 0, l.zero);
    ZeroNow(t, key);
    BagsTouched(s, t, a, key, 0, l.bags, ForeignSlot(s, a, key, 0), ForeignSlot(t, a, key, 0));
    ZeroHoldings(s, t, a, key, l.holdings);
  }

  lemma ZeroNow(t: Store, key: EntryKey)
    requires key in t.entries && t.entries[key].value != [] && t.entries[key].active[0]
    ensures ZeroOf(t.entries[key]) == SlotZero(true, t.entries[key].value[0])
  {
  }

  lemma ZeroAgrees(s: Store, a: ModifierRef, l: Ledger, key: EntryKey)
    requires Represents(s, a, l) && HasSlotZero(s) && key in s.entries
    ensures key in l.zero && l.zero[key] == ZeroOf(s.entries[key]) && s.entries[key].value != []
  {
    hide BagsAgree, HoldingsAgree, ZeroOf;
  }

  lemma SetRefines(s: Store, a: ModifierRef, l: Ledger, key: EntryKey, functionId: int, v: Raw)
    requires Sound(s) && HasSlotZero(s) && Represents(s, a, l) && functionId !in {2, 3, 4, 5}
    ensures var t := Apply(s, Modify(key, functionId, v));
      HasSlotZero(t) && Represents(t, a, LedgerSet(l, key, v))
  {
    hide Represents, Update, HasSlotZero, Accepts, Supported, Rebuild, EntriesSound, NoOrphans, NoSharing, RecordsPoint, Apply;
    AcceptsAgrees(s, a, l, key);
    if key in s.entries && key.property !in SPECIAL_PROPERTIES && Supported(s.entries[key]) {
      ZeroAgrees(s, a, l, key);
      SetTouches(s, key, functionId, v);
      ZeroLedger(s, Apply(s, Modify(key, functionId, v)), a, key, l, v);
    } else {
      SetRefused(s, key, functionId, v);
    }
  }

  lemma SetRefused(s: Store, key: EntryKey, functionId: int, v: Raw)
    requires !(key in s.entries && key.property !in SPECIAL_PROPERTIES && Supported(s.entries[key]))
    requires functionId !in {2, 3, 4, 5}
    ensures Apply(s, Modify(key, functionId, v)) == s
  {
    hide Update, Supported;
    if key in s.entries {
      UpdateShape(s.entries[key], 0, v);
    }
  }

  lemma SetTouches(s: Store, key: EntryKey, functionId: int, v: Raw)
    requires key in s.entries && key.property !in SPECIAL_PROPERTIES && Supported(s.entries[key])
    requires s.entries[key].value != [] && functionId !in {2, 3, 4, 5}
    ensures var t := Apply(s, Modify(key, functionId, v));
      && Touched(s, t, key, 0) && t.owned == s.owned && t.entries[key].value != []
      && t.entries[key].active[0] && t.entries[key].value[0] == v
  {
    UpdateShape(s.entries[key], 0, v);
    hide Update, Rebuild;
  }

  // -------------------------------------------------------------------------
  // Runs refine runs
  // -------------------------------------------------------------------------

  /** The step belongs to modifier `a`. */
  predicate IsStepOf(step: Step, a: ModifierRef) {
    !step.Modify? && step.m == a
  }

  function Erase(steps: seq<Step>, a: ModifierRef): seq<Step>
    decreases |steps|
  {
    if steps == [] then []
    else if IsStepOf(steps[0], a) then Erase(steps[1..], a)
    else [steps[0]] + Erase(steps[1..], a)
  }

  ghost function LedgerRun(l: Ledger, steps: seq<Step>): Ledger
    decreases |steps|
  {
    if steps == [] then l else LedgerRun(LedgerApply(l, steps[0]), steps[1..])
  }

  lemma StepRefines(s: Store, a: ModifierRef, l: Ledger, step: Step)
    requires Sound(s) && HasSlotZero(s) && Represents(s, a, l) && IsSet(step)
    ensures var t := Apply(s, step);
      HasSlotZero(t) && Represents(t, a, if IsStepOf(step, a) then l else LedgerApply(l, step))
  {
    hide Sound, HasSlotZero, Represents, StackContribution, PopContributions, LedgerStack, LedgerPop, LedgerSet;
    match step
    case Stack(m, stateRaw, key, v, isRefresh) => StackRefines(s, a, l, m, stateRaw, key, v, isRefresh);
    case Pop(m) => PopRefines(s, a, l, m);
    case Modify(key, functionId, operand) => SetRefines(s, a, l, key, functionId, operand);
  }

  /** A run of the slot runtime, seen without modifier `a`, is the ledger run of the other steps. */
  lemma {:induction false} RunRefinesLedger(s: Store, a: ModifierRef, l: Ledger, steps: seq<Step>)
    requires Sound(s) && HasSlotZero(s) && Represents(s, a, l) && forall step :: step in steps ==> IsSet(step)
    ensures Represents(Ownership.Run(s, steps), a, LedgerRun(l, Erase(steps, a)))
    decreases |steps|
  {
    hide Sound, HasSlotZero, Represents, Apply, LedgerApply, IsStepOf;
    if steps != [] {
      var l' := if IsStepOf(steps[0], a) then l else LedgerApply(l, steps[0]);
      StepRefines(s, a, l, steps[0]);
      ApplyKeeps(s, steps[0]);
      assert forall step :: step in steps[1..] ==> step in steps;
      RunRefinesLedger(Apply(s, steps[0]), a, l', steps[1..]);
      if !IsStepOf(steps[0], a) {
        assert Erase(steps, a)[0] == steps[0] && Erase(steps, a)[1..] == Erase(steps[1..], a);
      }
    }
  }
}

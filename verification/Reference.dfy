/** The simple property reference, and the slot runtime as a refinement of it.

The reference keeps one value for each (property, modifier) pair, in insertion order as a Python
dict does, and reads a property as its base plus all contributions to it.  Here a property is an
entry key, a modifier is a modifier reference, and a value is a qword standing for the number it
denotes.
 */
module Reference {
  import opened Wrappers
  import opened FixPoint
  import opened PropertyEntries
  import opened BattleStates
  import opened PropertyRuntime
  import opened SlotLaws
  import opened FoldLaws
  import opened Ownership
  import opened Ledgers
  import Erasure
  import FixPointLaws

  datatype Item = Item(key: EntryKey, m: ModifierRef, v: Raw)

  // -------------------------------------------------------------------------
  // The reference
  // -------------------------------------------------------------------------

  /** Replace the value of a (property, modifier) pair in place, or append the pair. */
  function SetContribution(items: seq<Item>, m: ModifierRef, key: EntryKey, v: Raw): seq<Item> {
    if items == [] then [Item(key, m, v)]
    else if items[0].key == key && items[0].m == m then [Item(key, m, v)] + items[1..]
    else [items[0]] + SetContribution(items[1..], m, key, v)
  }

  /** Drop a (property, modifier) pair; nothing happens when it is missing. */
  function RemoveContribution(items: seq<Item>, m: ModifierRef, key: EntryKey): seq<Item> {
    if items == [] then []
    else if items[0].key == key && items[0].m == m then items[1..]
    else [items[0]] + RemoveContribution(items[1..], m, key)
  }

  /** All contributions to a property, in insertion order. */
  function ValuesOf(items: seq<Item>, key: EntryKey): seq<Raw> {
    if items == [] then []
    else (if items[0].key == key then [items[0].v] else []) + ValuesOf(items[1..], key)
  }

  function TotalOf(items: seq<Item>, key: EntryKey): int {
    if items == [] then 0
    else (if items[0].key == key then Denote(items[0].v) else 0) + TotalOf(items[1..], key)
  }

  /** What the reference reads, in units of 2^-33. */
  function Read(base: Raw, items: seq<Item>, key: EntryKey): int {
    Denote(base) + TotalOf(items, key)
  }

  method ReadProperty(base: Raw, items: seq<Item>, key: EntryKey) returns (total: int)
    ensures total == Read(base, items, key)
  {
    hide Denote;
    total := Denote(base);
    for i := 0 to |items|
      invariant total + TotalOf(items[i..], key) == Read(base, items, key)
    {
      assert items[i..][1..] == items[i + 1..];
      if items[i].key == key {
        total := total + Denote(items[i].v);
      }
    }
  }

  function Lookup(items: seq<Item>, m: ModifierRef, key: EntryKey): Option<Raw> {
    if items == [] then None
    else if items[0].key == key && items[0].m == m then Some(items[0].v)
    else Lookup(items[1..], m, key)
  }

  function Without(items: seq<Item>, m: ModifierRef): seq<Item> {
    if items == [] then []
    else if items[0].m == m then Without(items[1..], m)
    else [items[0]] + Without(items[1..], m)
  }

  /** A refresh-style stack sets the pair; a pop removes every pair of the modifier. */
  function RefApply(items: seq<Item>, step: Step): seq<Item> {
    match step
    case Stack(m, _, key, v, _) => SetContribution(items, m, key, v)
    case Pop(m) => Without(items, m)
    case Modify(_, _, _) => items
  }

  function RefRun(items: seq<Item>, steps: seq<Step>): seq<Item>
    decreases |steps|
  {
    if steps == [] then items else RefRun(RefApply(items, steps[0]), steps[1..])
  }

  // -------------------------------------------------------------------------
  // Laws of the reference
  // -------------------------------------------------------------------------

  lemma {:induction false} SetIsSeen(items: seq<Item>, m: ModifierRef, key: EntryKey, v: Raw, m': ModifierRef, key': EntryKey)
    ensures Lookup(SetContribution(items, m, key, v), m', key') ==
      if m' == m && key' == key then Some(v) else Lookup(items, m', key')
  {
    if items != [] && !(items[0].key == key && items[0].m == m) {
      SetIsSeen(items[1..], m, key, v, m', key');
    }
  }

  ghost function BagIn(items: seq<Item>, key: EntryKey): multiset<Raw> {
    if items == [] then multiset{} else BagIn(items[1..], key) + ItemBag(items[0], key)
  }

  ghost function ItemBag(it: Item, key: EntryKey): multiset<Raw> {
    if it.key == key then multiset{it.v} else multiset{}
  }

  ghost function Found(items: seq<Item>, m: ModifierRef, key: EntryKey, key': EntryKey): multiset<Raw> {
    if key' == key && Lookup(items, m, key).Some? then multiset{Lookup(items, m, key).value} else multiset{}
  }

  lemma {:induction false} BagOfValues(items: seq<Item>, key: EntryKey)
    ensures multiset(ValuesOf(items, key)) == BagIn(items, key)
  {
    if items != [] {
      BagOfValues(items[1..], key);
    }
  }

  lemma {:induction false} FoundInBag(items: seq<Item>, m: ModifierRef, key: EntryKey, key': EntryKey)
    ensures Found(items, m, key, key') <= BagIn(items, key')
  {
    if items != [] {
      FoundInBag(items[1..], m, key, key');
    }
  }

  lemma {:induction false} SetBag(items: seq<Item>, m: ModifierRef, key: EntryKey, v: Raw, key': EntryKey)
    ensures BagIn(SetContribution(items, m, key, v), key') + Found(items, m, key, key')
         == BagIn(items, key') + ItemBag(Item(key, m, v), key')
  {
    if items != [] && !(items[0].key == key && items[0].m == m) {
      SetBag(items[1..], m, key, v, key');
      BagOfCons(items[0], SetContribution(items[1..], m, key, v), key');
      Regroup(BagIn(SetContribution(items[1..], m, key, v), key'), BagIn(items[1..], key'), ItemBag(items[0], key'),
              Found(items, m, key, key'), ItemBag(Item(key, m, v), key'));
    } else {
      BagOfCons(Item(key, m, v), if items == [] then [] else items[1..], key');
    }
  }

  /** The bags of a set and of a removal, at the entry itself and elsewhere. */
  lemma ElsewhereSame(items: seq<Item>, m: ModifierRef, key: EntryKey, v: Raw, key': EntryKey)
    requires key' != key
    ensures BagIn(SetContribution(items, m, key, v), key') == BagIn(items, key')
    ensures BagIn(RemoveContribution(items, m, key), key') == BagIn(items, key')
  {
    SetBag(items, m, key, v, key');
    RemoveBag(items, m, key, key');
    var b, s, r := BagIn(items, key'), BagIn(SetContribution(items, m, key, v), key'), BagIn(RemoveContribution(items, m, key), key');
    hide BagIn, SetContribution, RemoveContribution;
    assert s + multiset{} == s && r + multiset{} == r && b + multiset{} == b;
  }

  lemma BagOfCons(it: Item, items: seq<Item>, key: EntryKey)
    ensures BagIn([it] + items, key) == BagIn(items, key) + ItemBag(it, key)
  {
    assert ([it] + items)[1..] == items;
  }

  lemma {:induction false} RemoveBag(items: seq<Item>, m: ModifierRef, key: EntryKey, key': EntryKey)
    ensures BagIn(RemoveContribution(items, m, key), key') + Found(items, m, key, key') == BagIn(items, key')
  {
    if items != [] && !(items[0].key == key && items[0].m == m) {
      RemoveBag(items[1..], m, key, key');
      BagOfCons(items[0], RemoveContribution(items[1..], m, key), key');
      Regroup(BagIn(RemoveContribution(items[1..], m, key), key'), BagIn(items[1..], key'), ItemBag(items[0], key'),
              Found(items, m, key, key'), multiset{});
    }
  }

  /** At most one item for each pair. */
  ghost predicate Keyed(items: seq<Item>) {
    forall i, j :: 0 <= i < j < |items| ==> items[i].key != items[j].key || items[i].m != items[j].m
  }

  lemma {:induction false} SetIsKeyed(items: seq<Item>, m: ModifierRef, key: EntryKey, v: Raw)
    requires Keyed(items)
    ensures Keyed(SetContribution(items, m, key, v))
    ensures forall it :: it in SetContribution(items, m, key, v) ==>
      it == Item(key, m, v) || (it in items && (it.key != key || it.m != m))
  {
    if items != [] {
      if items[0].key == key && items[0].m == m {
        assert forall it :: it in items[1..] ==> it.key != key || it.m != m;
      } else {
        SetIsKeyed(items[1..], m, key, v);
      }
    }
  }

  lemma {:induction false} RemoveIsSeen(items: seq<Item>, m: ModifierRef, key: EntryKey, m': ModifierRef, key': EntryKey)
    requires Keyed(items)
    ensures Lookup(RemoveContribution(items, m, key), m', key') ==
      if m' == m && key' == key then None else Lookup(items, m', key')
  {
    if items != [] {
      if items[0].key == key && items[0].m == m {
        NotThere(items[1..], m, key);
      } else {
        RemoveIsSeen(items[1..], m, key, m', key');
      }
    }
  }

  lemma {:induction false} NotThere(items: seq<Item>, m: ModifierRef, key: EntryKey)
    ensures Lookup(items, m, key) == None <==> forall it :: it in items ==> it.key != key || it.m != m
  {
    if items != [] {
      NotThere(items[1..], m, key);
    }
  }

  lemma {:induction false} RemoveIsKeyed(items: seq<Item>, m: ModifierRef, key: EntryKey)
    requires Keyed(items)
    ensures Keyed(RemoveContribution(items, m, key))
    ensures forall it :: it in RemoveContribution(items, m, key) ==> it in items
    ensures Without(RemoveContribution(items, m, key), m) == Without(items, m)
  {
    if items != [] && !(items[0].key == key && items[0].m == m) {
      RemoveIsKeyed(items[1..], m, key);
      var rest := RemoveContribution(items[1..], m, key);
      assert forall it :: it in rest ==> it.key != items[0].key || it.m != items[0].m;
      assert ([items[0]] + rest)[1..] == rest;
    }
  }

  /** Once no pair of the modifier is left, dropping its pairs changes nothing. */
  lemma {:induction false} WithoutNothing(items: seq<Item>, m: ModifierRef)
    requires forall key :: Lookup(items, m, key) == None
    ensures Without(items, m) == items
  {
    if items != [] {
      assert Lookup(items, m, items[0].key) == None;
      forall key
        ensures Lookup(items[1..], m, key) == None
      {
        NotThere(items, m, key);
        NotThere(items[1..], m, key);
      }
      WithoutNothing(items[1..], m);
    }
  }

  // -------------------------------------------------------------------------
  // Ledgers match the reference
  // -------------------------------------------------------------------------

  ghost predicate KeyedHoldings(hs: seq<Holding>) {
    forall i, j :: 0 <= i < j < |hs| ==> hs[i].key != hs[j].key
  }

  function Holds(hs: seq<Holding>, key: EntryKey): Option<Raw> {
    if hs == [] then None else if hs[0].key == key then Some(hs[0].v) else Holds(hs[1..], key)
  }

  ghost function ZeroBag(l: Ledger, key: EntryKey): multiset<Raw> {
    if key in l.zero then l.zero[key].Bag() else multiset{}
  }

  ghost predicate SameContributions(l: Ledger, items: seq<Item>) {
    && (forall m :: KeyedHoldings(HoldingsOf(l, m)))
    && (forall m, key :: Holds(HoldingsOf(l, m), key) == Lookup(items, m, key))
  }

  ghost predicate SameBagsAs(l: Ledger, items: seq<Item>) {
    forall key :: key in l.bags ==> l.bags[key] == BagIn(items, key) + ZeroBag(l, key)
  }

  ghost predicate Matches(l: Ledger, items: seq<Item>) {
    Keyed(items) && SameContributions(l, items) && SameBagsAs(l, items)
  }

  lemma {:induction false} HoldsFound(hs: seq<Holding>, key: EntryKey)
    ensures FindHolding(hs, key).None? ==> Holds(hs, key) == None
    ensures FindHolding(hs, key).Some? ==> Holds(hs, key) == Some(hs[FindHolding(hs, key).value].v)
    ensures FindHolding(hs, key).None? ==> forall h :: h in hs ==> h.key != key
  {
    if hs != [] {
      HoldsFound(hs[1..], key);
    }
  }

  lemma {:induction false} HoldsAfterAppend(hs: seq<Holding>, h: Holding, key: EntryKey)
    ensures Holds(hs + [h], key) == if Holds(hs, key).Some? then Holds(hs, key) else if h.key == key then Some(h.v) else None
  {
    if hs != [] {
      assert (hs + [h])[1..] == hs[1..] + [h];
      HoldsAfterAppend(hs[1..], h, key);
    }
  }

  lemma {:induction false} HoldsAfterRewrite(hs: seq<Holding>, k: EntryKey, v: Raw, key: EntryKey)
    requires FindHolding(hs, k).Some?
    ensures Holds(hs[FindHolding(hs, k).value := Holding(k, v)], key) == if key == k then Some(v) else Holds(hs, key)
  {
    if hs[0].key != k {
      HoldsAfterRewrite(hs[1..], k, v, key);
      var j := FindHolding(hs, k).value;
      assert hs[j := Holding(k, v)][1..] == hs[1..][j - 1 := Holding(k, v)];
    }
  }

  lemma HoldsAfterDrop(hs: seq<Holding>, key: EntryKey)
    requires hs != [] && KeyedHoldings(hs)
    ensures KeyedHoldings(hs[1..])
    ensures Holds(hs[1..], key) == if key == hs[0].key then None else Holds(hs, key)
  {
    HoldsFound(hs[1..], key);
  }

  /** A ledger step that changes only the holdings of `m`. */
  lemma ContributionsChange(l: Ledger, l': Ledger, items: seq<Item>, items': seq<Item>, m: ModifierRef)
    requires SameContributions(l, items)
    requires forall m' :: m' != m ==> HoldingsOf(l', m') == HoldingsOf(l, m')
    requires forall m', key :: m' != m ==> Lookup(items', m', key) == Lookup(items, m', key)
    requires KeyedHoldings(HoldingsOf(l', m))
    requires forall key :: Holds(HoldingsOf(l', m), key) == Lookup(items', m, key)
    ensures SameContributions(l', items')
  {
    forall m'
      ensures KeyedHoldings(HoldingsOf(l', m'))
    {
      assert KeyedHoldings(HoldingsOf(l, m'));
    }
  }

  lemma BagsChange(l: Ledger, l': Ledger, items: seq<Item>, items': seq<Item>, key: EntryKey,
                   gone: multiset<Raw>, come: multiset<Raw>)
    requires SameBagsAs(l, items) && l'.zero == l.zero && key in l.bags
    requires l'.bags == l.bags[key := l.bags[key] - gone + come]
    requires BagIn(items', key) + gone == BagIn(items, key) + come && gone <= BagIn(items, key)
    requires forall k :: k != key ==> BagIn(items', k) == BagIn(items, k)
    ensures SameBagsAs(l', items')
  {
    hide BagIn;
    SolveExchange(BagIn(items, key), BagIn(items', key), gone, come);
    BagOnTop(BagIn(items, key), ZeroBag(l, key), gone, come);
    hide ZeroBag;
    assert forall k :: ZeroBag(l', k) == ZeroBag(l, k) by { SameZero(l, l'); }
  }

  lemma SameZero(l: Ledger, l': Ledger)
    requires l'.zero == l.zero
    ensures forall k :: ZeroBag(l', k) == ZeroBag(l, k)
  {
  }

  lemma BagOnTop(b: multiset<Raw>, z: multiset<Raw>, gone: multiset<Raw>, come: multiset<Raw>)
    requires gone <= b
    ensures (b + z) - gone + come == (b - gone + come) + z
  {
  }

  lemma StackMatches(l: Ledger, items: seq<Item>, m: ModifierRef, key: EntryKey, v: Raw)
    requires Matches(l, items) && Accepts(l, key)
    ensures var l' := LedgerStack(l, m, key, v, true);
      Matches(l', SetContribution(items, m, key, v)) && l'.forms == l.forms && l'.zero == l.zero
      && (forall k :: k in l'.bags <==> k in l.bags)
  {
    hide Accepts, LedgerStack, SetContribution, SameContributions, SameBagsAs, Keyed;
    SetIsKeyed(items, m, key, v);
    StackShape(l, m, key, v);
    StackSameContributions(l, items, m, key, v);
    StackSameBags(l, items, m, key, v);
  }

  lemma StackShape(l: Ledger, m: ModifierRef, key: EntryKey, v: Raw)
    requires Accepts(l, key)
    ensures var l' := LedgerStack(l, m, key, v, true);
      l'.forms == l.forms && l'.zero == l.zero && (forall k :: k in l'.bags <==> k in l.bags)
  {
  }

  lemma StackSameContributions(l: Ledger, items: seq<Item>, m: ModifierRef, key: EntryKey, v: Raw)
    requires SameContributions(l, items) && Accepts(l, key)
    ensures SameContributions(LedgerStack(l, m, key, v, true), SetContribution(items, m, key, v))
  {
    var l', items' := LedgerStack(l, m, key, v, true), SetContribution(items, m, key, v);
    var hs := HoldingsOf(l, m);
    assert KeyedHoldings(hs);
    HoldsFound(hs, key);
    var found := FindHolding(hs, key);
    assert HoldingsOf(l', m) == if found.Some? then hs[found.value := Holding(key, v)] else hs + [Holding(key, v)];
    hide Accepts, LedgerStack, HoldingsOf;
    forall m', key'
      ensures Lookup(items', m', key') == if m' == m && key' == key then Some(v) else Lookup(items, m', key')
    {
      SetIsSeen(items, m, key, v, m', key');
    }
    forall key'
      ensures Holds(HoldingsOf(l', m), key') == if key' == key then Some(v) else Holds(hs, key')
    {
      if found.Some? {
        HoldsAfterRewrite(hs, key, v, key');
      } else {
        HoldsAfterAppend(hs, Holding(key, v), key');
      }
    }
    assert forall m' :: m' != m ==> HoldingsOf(l', m') == HoldingsOf(l, m') by { StackLeavesOthers(l, m, key, v); }
    ContributionsChange(l, l', items, items', m);
  }

  lemma StackLeavesOthers(l: Ledger, m: ModifierRef, key: EntryKey, v: Raw)
    ensures forall m' :: m' != m ==> HoldingsOf(LedgerStack(l, m, key, v, true), m') == HoldingsOf(l, m')
  {
  }

  lemma StackSameBags(l: Ledger, items: seq<Item>, m: ModifierRef, key: EntryKey, v: Raw)
    requires SameContributions(l, items) && SameBagsAs(l, items) && Accepts(l, key)
    ensures SameBagsAs(LedgerStack(l, m, key, v, true), SetContribution(items, m, key, v))
  {
    var l', items' := LedgerStack(l, m, key, v, true), SetContribution(items, m, key, v);
    var hs := HoldingsOf(l, m);
    HoldsFound(hs, key);
    assert Holds(hs, key) == Lookup(items, m, key);
    var gone := Found(items, m, key, key);
    assert l'.bags == l.bags[key := l.bags[key] - gone + multiset{v}] && l'.zero == l.zero;
    hide LedgerStack, BagIn, SetContribution, SameBagsAs;
    SetBag(items, m, key, v, key);
    FoundInBag(items, m, key, key);
    forall k | k != key
      ensures BagIn(items', k) == BagIn(items, k)
    {
      ElsewhereSame(items, m, key, v, k);
    }
    BagsChange(l, l', items, items', key, gone, multiset{v});
  }

  lemma DropMatches(l: Ledger, items: seq<Item>, m: ModifierRef)
    requires Matches(l, items) && m in l.holdings && l.holdings[m] != [] && l.holdings[m][0].key in l.bags
    ensures var l' := LedgerDrop(l, m);
      Matches(l', RemoveContribution(items, m, l.holdings[m][0].key)) && l'.forms == l.forms && l'.zero == l.zero
      && m in l'.holdings && l'.holdings[m] == l.holdings[m][1..] && (forall k :: k in l'.bags <==> k in l.bags)
  {
    var h, l' := l.holdings[m][0], LedgerDrop(l, m);
    RemoveIsKeyed(items, m, h.key);
    DropShape(l, m);
    DropSameBags(l, items, m);
    DropSameContributions(l, items, m);
    hide LedgerDrop, SameContributions, SameBagsAs, Keyed, RemoveContribution;
  }

  lemma DropShape(l: Ledger, m: ModifierRef)
    requires m in l.holdings && l.holdings[m] != [] && l.holdings[m][0].key in l.bags
    ensures var l' := LedgerDrop(l, m);
      && l'.forms == l.forms && l'.zero == l.zero && m in l'.holdings && l'.holdings[m] == l.holdings[m][1..]
      && (forall k :: k in l'.bags <==> k in l.bags)
      && (forall m' :: m' != m ==> HoldingsOf(l', m') == HoldingsOf(l, m'))
  {
  }

  lemma DropSameContributions(l: Ledger, items: seq<Item>, m: ModifierRef)
    requires Keyed(items) && SameContributions(l, items)
    requires m in l.holdings && l.holdings[m] != [] && l.holdings[m][0].key in l.bags
    ensures SameContributions(LedgerDrop(l, m), RemoveContribution(items, m, l.holdings[m][0].key))
  {
    var h, l' := l.holdings[m][0], LedgerDrop(l, m);
    var items' := RemoveContribution(items, m, h.key);
    DropShape(l, m);
    assert KeyedHoldings(HoldingsOf(l, m));
    hide LedgerDrop, RemoveContribution, Keyed;
    forall m', key'
      ensures Lookup(items', m', key') == if m' == m && key' == h.key then None else Lookup(items, m', key')
    {
      RemoveIsSeen(items, m, h.key, m', key');
    }
    forall key'
      ensures KeyedHoldings(HoldingsOf(l', m))
      ensures Holds(HoldingsOf(l', m), key') == if key' == h.key then None else Holds(HoldingsOf(l, m), key')
    {
      HoldsAfterDrop(l.holdings[m], key');
    }
    hide KeyedHoldings, Holds, Lookup;
    ContributionsChange(l, l', items, items', m);
  }

  lemma DropSameBags(l: Ledger, items: seq<Item>, m: ModifierRef)
    requires Matches(l, items) && m in l.holdings && l.holdings[m] != [] && l.holdings[m][0].key in l.bags
    ensures SameBagsAs(LedgerDrop(l, m), RemoveContribution(items, m, l.holdings[m][0].key))
  {
    var h, l' := l.holdings[m][0], LedgerDrop(l, m);
    var items' := RemoveContribution(items, m, h.key);
    assert Holds(HoldingsOf(l, m), h.key) == Some(h.v) == Lookup(items, m, h.key);
    hide BagIn, RemoveContribution, SameBagsAs, SameContributions;
    RemoveBag(items, m, h.key, h.key);
    FoundInBag(items, m, h.key, h.key);
    forall k | k != h.key
      ensures BagIn(items', k) == BagIn(items, k)
    {
      ElsewhereSame(items, m, h.key, h.v, k);
    }
    assert BagIn(items, h.key) + multiset{} == BagIn(items, h.key);
    BagsChange(l, l', items, items', h.key, multiset{h.v}, multiset{});
  }

  /** A pop in the ledger is the removal, pair by pair, of all the modifier's contributions. */
  lemma {:induction false} DropAllMatches(l: Ledger, items: seq<Item>, m: ModifierRef)
    requires Matches(l, items) && m in l.holdings && forall h :: h in l.holdings[m] ==> h.key in l.bags
    ensures var l' := LedgerDropAll(l, m);
      Matches(l', Without(items, m)) && l'.forms == l.forms && l'.zero == l.zero
      && m in l'.holdings && l'.holdings[m] == [] && (forall k :: k in l'.bags <==> k in l.bags)
    decreases |l.holdings[m]|
  {
    if l.holdings[m] == [] {
      assert forall key :: Holds(HoldingsOf(l, m), key) == None;
      hide Holds;
      assert forall key :: Lookup(items, m, key) == None;
      WithoutNothing(items, m);
    } else {
      hide Matches, LedgerDrop;
      DropMatches(l, items, m);
      var key := l.holdings[m][0].key;
      assert Keyed(items) by { MatchesKeyed(l, items); }
      RemoveIsKeyed(items, m, key);
      DropAllMatches(LedgerDrop(l, m), RemoveContribution(items, m, key), m);
    }
  }

  lemma MatchesKeyed(l: Ledger, items: seq<Item>)
    requires Matches(l, items)
    ensures Keyed(items)
  {
  }

  lemma PopMatches(l: Ledger, items: seq<Item>, m: ModifierRef)
    requires Matches(l, items) && forall h :: h in HoldingsOf(l, m) ==> h.key in l.bags
    ensures var l' := LedgerPop(l, m);
      Matches(l', Without(items, m)) && l'.forms == l.forms && l'.zero == l.zero
      && (forall k :: k in l'.bags <==> k in l.bags)
  {
    if m in l.holdings {
      DropAllMatches(l, items, m);
      var l0 := LedgerDropAll(l, m);
      var l' := LedgerPop(l, m);
      hide LedgerPop, LedgerDropAll;
      assert forall m' :: HoldingsOf(l', m') == HoldingsOf(l0, m') by { ForgetSame(l0, m); }
      SameZero(l0, l');
    } else {
      assert forall key :: Holds(HoldingsOf(l, m), key) == None;
      WithoutNothing(items, m);
    }
  }

  lemma ForgetSame(l: Ledger, m: ModifierRef)
    requires m in l.holdings && l.holdings[m] == []
    ensures forall m' :: HoldingsOf(l.(holdings := l.holdings - {m}), m') == HoldingsOf(l, m')
  {
  }

  // -------------------------------------------------------------------------
  // The slot runtime refines the reference
  // -------------------------------------------------------------------------

  /** Refresh-style stacks of live modifiers on entries that accept them, pops, and source-0 sets of
      any entry. */
  ghost predicate RefreshStyle(forms: map<EntryKey, Form>, step: Step) {
    match step
    case Stack(_, stateRaw, key, _, isRefresh) =>
      stateRaw <= ALIVE && isRefresh && key in forms && forms[key].Supported()
    case Pop(_) => true
    case Modify(_, _, _) => IsSet(step)
  }

  /** Every entry of the ledger is complete, and holdings are on entries of the ledger. */
  ghost predicate Closed(l: Ledger) {
    && (forall k :: k in l.bags <==> k in l.forms)
    && (forall k :: k in l.zero <==> k in l.forms)
    && (forall m, h :: h in HoldingsOf(l, m) ==> h.key in l.bags)
  }

  lemma {:induction false} DropAllClosed(l: Ledger, m: ModifierRef)
    requires Closed(l) && m in l.holdings
    ensures Closed(LedgerDropAll(l, m)) && LedgerDropAll(l, m).forms == l.forms
    decreases |l.holdings[m]|
  {
    if l.holdings[m] != [] {
      assert l.holdings[m][0] in HoldingsOf(l, m);
      DropShape(l, m);
      var l' := LedgerDrop(l, m);
      assert forall m' :: m' != m ==> HoldingsOf(l', m') == HoldingsOf(l, m');
      assert HoldingsOf(l', m) == HoldingsOf(l, m)[1..];
      hide LedgerDrop;
      DropAllClosed(l', m);
    }
  }

  lemma StepMatches(l: Ledger, items: seq<Item>, step: Step)
    requires Matches(l, items) && Closed(l) && RefreshStyle(l.forms, step)
    ensures var l' := LedgerApply(l, step);
      Matches(l', RefApply(items, step)) && Closed(l') && l'.forms == l.forms
  {
    match step
    case Stack(m, stateRaw, key, v, isRefresh) =>
      StackMatches(l, items, m, key, v);
      StackClosed(l, m, key, v);
      hide Matches, Closed, LedgerStack, Accepts, SetContribution;
    case Pop(m) =>
      PopMatches(l, items, m);
      PopClosed(l, m);
      hide Matches, Closed, LedgerPop, Without;
    case Modify(key, functionId, operand) =>
      SetMatches(l, items, key, operand);
      hide Matches, Closed, LedgerSet;
  }

  lemma SetShape(l: Ledger, key: EntryKey, v: Raw)
    ensures var l' := LedgerSet(l, key, v);
      && l'.forms == l.forms && l'.holdings == l.holdings
      && (l' == l ||
           (&& key in l.bags && key in l.zero && l'.zero == l.zero[key := SlotZero(true, v)]
            && l'.bags == l.bags[key := l.bags[key] - l.zero[key].Bag() + multiset{v}]))
  {
  }

  lemma SameHoldingsMatch(l: Ledger, l': Ledger, items: seq<Item>)
    requires SameContributions(l, items) && l'.holdings == l.holdings
    ensures SameContributions(l', items)
  {
    hide Lookup, Holds, KeyedHoldings;
    assert forall m :: HoldingsOf(l', m) == HoldingsOf(l, m);
  }

  lemma ZeroChange(l: Ledger, l': Ledger, items: seq<Item>, key: EntryKey, v: Raw)
    requires SameBagsAs(l, items) && key in l.bags && key in l.zero && l'.zero == l.zero[key := SlotZero(true, v)]
    requires l'.bags == l.bags[key := l.bags[key] - l.zero[key].Bag() + multiset{v}]
    ensures SameBagsAs(l', items)
  {
    hide BagIn;
    OnTopReplaced(BagIn(items, key), l.zero[key].Bag(), multiset{v});
  }

  /** A source-0 set replaces what slot 0 holds on top of the contributions. */
  lemma SetMatches(l: Ledger, items: seq<Item>, key: EntryKey, v: Raw)
    requires Matches(l, items) && Closed(l)
    ensures var l' := LedgerSet(l, key, v);
      Matches(l', items) && Closed(l') && l'.forms == l.forms
  {
    hide LedgerSet, SameContributions, SameBagsAs, Keyed;
    var l' := LedgerSet(l, key, v);
    SetShape(l, key, v);
    SameHoldingsMatch(l, l', items);
    assert forall m :: HoldingsOf(l', m) == HoldingsOf(l, m);
    if l' != l {
      ZeroChange(l, l', items, key, v);
    }
  }

  lemma OnTopReplaced(b: multiset<Raw>, gone: multiset<Raw>, come: multiset<Raw>)
    ensures (b + gone) - gone + come == b + come
  {
  }

  lemma StackClosed(l: Ledger, m: ModifierRef, key: EntryKey, v: Raw)
    requires Closed(l) && Accepts(l, key)
    ensures Closed(LedgerStack(l, m, key, v, true))
  {
    var l' := LedgerStack(l, m, key, v, true);
    StackLeavesOthers(l, m, key, v);
    assert forall h :: h in HoldingsOf(l', m) ==> h in HoldingsOf(l, m) || h.key == key;
  }

  lemma PopClosed(l: Ledger, m: ModifierRef)
    requires Closed(l)
    ensures Closed(LedgerPop(l, m))
  {
    if m in l.holdings {
      DropAllClosed(l, m);
      LedgerDropAllEmpties(l, m);
      var l0 := LedgerDropAll(l, m);
      ForgetSame(l0, m);
      hide LedgerDropAll;
    }
  }

  lemma {:induction false} RunMatches(l: Ledger, items: seq<Item>, steps: seq<Step>)
    requires Matches(l, items) && Closed(l) && forall step :: step in steps ==> RefreshStyle(l.forms, step)
    ensures Matches(LedgerRun(l, steps), RefRun(items, steps))
    ensures LedgerRun(l, steps).forms == l.forms
    decreases |steps|
  {
    hide Matches, Closed, LedgerApply, RefApply, RefreshStyle;
    if steps != [] {
      StepMatches(l, items, steps[0]);
      assert forall step :: step in steps[1..] ==> step in steps;
      RunMatches(LedgerApply(l, steps[0]), RefApply(items, steps[0]), steps[1..]);
    }
  }

  // A modifier that no step mentions, so that the ledger without it is the whole ledger.

  function LargestOrdinal(steps: seq<Step>): nat {
    if steps == [] then 0
    else
      var rest := LargestOrdinal(steps[1..]);
      if steps[0].Modify? || steps[0].m.ordinal <= rest then rest else steps[0].m.ordinal
  }

  lemma {:induction false} NoStepIsOf(steps: seq<Step>, a: ModifierRef)
    requires a.ordinal > LargestOrdinal(steps)
    ensures Erase(steps, a) == steps
  {
    if steps != [] {
      NoStepIsOf(steps[1..], a);
    }
  }

  /** The sum over a bag of on-grid values is the reference's total. */
  lemma {:induction false} TotalIsSum(items: seq<Item>, key: EntryKey)
    requires forall v :: v in ValuesOf(items, key) ==> OnGrid(v)
    ensures TotalOf(items, key) == 128 * SumEven(ValuesOf(items, key))
  {
    hide Denote, Decode, OnGrid;
    if items != [] {
      var values := ValuesOf(items[1..], key);
      assert forall v :: v in values ==> v in ValuesOf(items, key);
      TotalIsSum(items[1..], key);
      if items[0].key == key {
        var v := items[0].v;
        assert ValuesOf(items, key) == [v] + values;
        assert v in ValuesOf(items, key);
        SumEvenSplit([v] + values, 0);
        assert ([v] + values)[..0] + ([v] + values)[0 + 1..] == values;
        FixPointLaws.DecodeMonotone(v, v);
      } else {
        assert ValuesOf(items, key) == [] + values == values;
      }
    }
  }

  /** A battle in which nothing has been stacked yet. */
  ghost predicate Fresh(s: Store) {
    && EntriesSound(s) && HasSlotZero(s) && s.owned == map[]
    && forall key, i :: key in s.entries && 1 <= i < |s.entries[key].value| ==> !s.entries[key].active[i]
  }

  lemma {:induction false} OnlySlotZero(active: seq<bool>, value: seq<Raw>, n: nat)
    requires 1 <= n <= |active| == |value| && forall i :: 1 <= i < |active| ==> !active[i]
    ensures ActivePrefix(active, value, n) == SlotValues(active[0], value[0])
  {
    if n == 1 {
      assert ActivePrefix(active, value, 1) == ActivePrefix(active, value, 0) + SlotValues(active[0], value[0]);
    } else {
      OnlySlotZero(active, value, n - 1);
      assert ActivePrefix(active, value, n) == ActivePrefix(active, value, n - 1) + [];
    }
  }

  lemma FreshBag(r: EntryRecord)
    requires r.value != [] && forall i :: 1 <= i < |r.active| ==> !r.active[i]
    ensures ActiveBag(r) == ZeroOf(r).Bag()
  {
    OnlySlotZero(r.active, r.value, |r.value|);
  }

  lemma EmptyMatches(l: Ledger)
    requires l.holdings == map[] && forall key :: key in l.bags ==> l.bags[key] == ZeroBag(l, key)
    ensures Matches(l, [])
  {
    hide ZeroBag;
    forall key | key in l.bags
      ensures l.bags[key] == BagIn([], key) + ZeroBag(l, key)
    {
      assert multiset{} + ZeroBag(l, key) == ZeroBag(l, key);
    }
  }

  lemma FreshBags(s: Store, a: ModifierRef)
    requires Fresh(s)
    ensures forall key :: key in s.entries ==> ForeignBag(s, a, key) == ZeroOf(s.entries[key]).Bag()
  {
    forall key | key in s.entries
      ensures ForeignBag(s, a, key) == ZeroOf(s.entries[key]).Bag()
    {
      Erasure.NothingForeign(s, a, key);
      FreshBag(s.entries[key]);
    }
  }

  lemma EmptyClosed(l: Ledger)
    requires l.holdings == map[]
    requires (forall k :: k in l.bags <==> k in l.forms) && (forall k :: k in l.zero <==> k in l.forms)
    ensures Closed(l)
  {
  }

  lemma FreshLedger(s: Store, a: ModifierRef)
    requires Fresh(s)
    ensures var l := Erasure.LedgerOf(s, a);
      Represents(s, a, l) && Matches(l, []) && Closed(l)
  {
    Erasure.LedgerOfRepresents(s, a);
    FreshBags(s, a);
    hide Represents, Matches, Closed, Fresh, ForeignBag, HeldAll, FormOf, ZeroOf;
    EmptyMatches(Erasure.LedgerOf(s, a));
    EmptyClosed(Erasure.LedgerOf(s, a));
  }

  /** What slot 0 of an entry adds to its contributions. */
  function SlotZeroPart(r: EntryRecord): int {
    if ZeroOf(r).active then Denote(ZeroOf(r).v) else 0
  }

  function SlotZeroValues(r: EntryRecord): seq<Raw> {
    if ZeroOf(r).active then [ZeroOf(r).v] else []
  }

  /** The even parts of the contributions and of slot 0, as one number. */
  lemma TotalWithZero(r: EntryRecord, items: seq<Item>, key: EntryKey)
    requires forall v :: v in SlotZeroValues(r) + ValuesOf(items, key) ==> OnGrid(v)
    ensures 128 * SumEven(SlotZeroValues(r) + ValuesOf(items, key)) == TotalOf(items, key) + SlotZeroPart(r)
  {
    hide Denote, Decode, OnGrid, ValuesOf, TotalOf;
    var values := ValuesOf(items, key);
    assert forall v :: v in values ==> v in SlotZeroValues(r) + values;
    TotalIsSum(items, key);
    if ZeroOf(r).active {
      var v := ZeroOf(r).v;
      assert ([v] + values)[0] == v;
      SumEvenSplit([v] + values, 0);
      assert FoldLaws.Without([v] + values, 0) == values;
      FixPointLaws.DecodeMonotone(v, v);
    } else {
      assert [] + values == values;
    }
  }

  /** The sum of an entry's active values, from the bag of them. */
  lemma SumOfBag(r: EntryRecord, items: seq<Item>, key: EntryKey)
    requires ActiveBag(r) == BagIn(items, key) + ZeroOf(r).Bag()
    requires forall v :: v in ActiveValues(r.active, r.value) ==> OnGrid(v)
    ensures 128 * Sum(ActiveValues(r.active, r.value)) == TotalOf(items, key) + SlotZeroPart(r)
  {
    hide Denote, Decode, OnGrid, ActiveValues, Sum, SumEven, SlotZeroPart, TotalOf, BagIn, ValuesOf;
    var s, t := ActiveValues(r.active, r.value), SlotZeroValues(r) + ValuesOf(items, key);
    BagOfValues(items, key);
    assert multiset(t) == multiset(SlotZeroValues(r)) + multiset(ValuesOf(items, key));
    hide ZeroOf;
    SameElements(s, t);
    SumEvenOfBag(s, t);
    SumIsEven(s);
    TotalWithZero(r, items, key);
  }

  /** The number an additive entry reads, from the bag of its active values. */
  lemma AdditiveReading(r: EntryRecord, items: seq<Item>, key: EntryKey)
    requires r.kind == 3 && r.post.AllNull() && InSync(r) && ActiveBag(r) == BagIn(items, key) + ZeroOf(r).Bag()
    requires SumsExactly(r)
    ensures Denote(r.materialized) == Read(r.base, items, key) + SlotZeroPart(r)
  {
    RebuildIsSync(r);
    assert r.materialized == FoldAdd(r.base, ActiveValues(r.active, r.value));
    hide Materialize, Rebuild, Denote, Decode, OnGrid, FoldAdd, InSync, ActiveValues, Unsaturated, Sum, SlotZeroPart, ActiveBag,
      BagIn, ZeroOf, TotalOf;
    SumOfBag(r, items, key);
    FoldAddExact(r.base, ActiveValues(r.active, r.value));
    FixPointLaws.DecodeMonotone(r.base, r.base);
    FixPointLaws.DecodeMonotone(r.materialized, r.materialized);
  }

  /** Refinement.  From a fresh battle, after any refresh-style run with any source-0 sets in it, each
      modifier contributes to each entry what the reference says, and every additive entry reads
      exactly base plus contributions plus its own slot 0, as long as its values are on the grid and
      no running total saturates. */
  lemma RuntimeRefinesReference(s0: Store, steps: seq<Step>, key: EntryKey)
    requires Fresh(s0) && key in s0.entries
    requires var forms := map k | k in s0.entries :: FormOf(s0.entries[k]);
      forall step :: step in steps ==> RefreshStyle(forms, step)
    ensures var s, items := Ownership.Run(s0, steps), RefRun([], steps);
      && (forall m :: Holds(HeldAll(s, RecordsOf(s, m)), key) == Lookup(items, m, key))
      && key in s.entries
      && var r := s.entries[key];
      && r.base == s0.entries[key].base && r.kind == s0.entries[key].kind && r.post == s0.entries[key].post
      && (r.kind == 3 && r.post.AllNull() && SumsExactly(r) ==>
           Denote(r.materialized) == Read(r.base, items, key) + SlotZeroPart(r))
  {
    var a := ModifierRef("", 0, LargestOrdinal(steps) + 1);
    var s, items := Ownership.Run(s0, steps), RefRun([], steps);
    var l0 := Erasure.LedgerOf(s0, a);
    FreshLedger(s0, a);
    FreshSound(s0);
    NoStepIsOf(steps, a);
    RefreshSteps(l0, steps, a);
    RefinedRun(s0, steps, a, l0);
    var l := LedgerRun(l0, steps);
    RunMatches(l0, [], steps);
    assert l0.forms[key] == FormOf(s0.entries[key]);
    hide Ownership.Run, RefRun, LedgerRun, Fresh, RefreshStyle, SumsExactly;
    forall m
      ensures Holds(HeldAll(s, RecordsOf(s, m)), key) == Lookup(items, m, key)
    {
      SameLists(s, a, l, m);
      MatchesLookup(l, items, m, key);
    }
    EntryAgrees(s, a, l, items, key);
    var r := s.entries[key];
    if r.kind == 3 && r.post.AllNull() && SumsExactly(r) {
      AdditiveReading(r, items, key);
    }
  }

  lemma FreshSound(s: Store)
    requires Fresh(s)
    ensures Sound(s)
  {
    FreshStoreIsSound(s);
  }

  lemma RefreshSteps(l: Ledger, steps: seq<Step>, a: ModifierRef)
    requires forall step :: step in steps ==> RefreshStyle(l.forms, step)
    requires Erase(steps, a) == steps
    ensures forall step :: step in steps ==> IsSet(step) && !IsStepOf(step, a)
  {
    Erasure.EraseLeavesNone(steps, a);
  }

  lemma RefinedRun(s0: Store, steps: seq<Step>, a: ModifierRef, l0: Ledger)
    requires Sound(s0) && HasSlotZero(s0) && s0.owned == map[] && Represents(s0, a, l0) && Erase(steps, a) == steps
    requires forall step :: step in steps ==> IsSet(step) && !IsStepOf(step, a)
    ensures var s := Ownership.Run(s0, steps);
      Sound(s) && Represents(s, a, LedgerRun(l0, steps)) && a !in s.owned
  {
    hide Sound, HasSlotZero, Represents, Ownership.Run, LedgerRun, IsSet, IsStepOf;
    RunIsSound(s0, steps);
    RunRefinesLedger(s0, a, l0, steps);
    Erasure.StaysUnknown(s0, steps, a);
  }

  lemma SameLists(s: Store, a: ModifierRef, l: Ledger, m: ModifierRef)
    requires Represents(s, a, l) && a !in s.owned
    ensures HoldingsOf(l, m) == HeldAll(s, RecordsOf(s, m))
  {
    hide FormsAgree, ZerosAgree, BagsAgree;
    assert HeldAll(s, []) == [];
  }

  lemma MatchesLookup(l: Ledger, items: seq<Item>, m: ModifierRef, key: EntryKey)
    requires Matches(l, items)
    ensures Holds(HoldingsOf(l, m), key) == Lookup(items, m, key)
  {
  }

  lemma EntryAgrees(s: Store, a: ModifierRef, l: Ledger, items: seq<Item>, key: EntryKey)
    requires Sound(s) && Represents(s, a, l) && a !in s.owned && Matches(l, items) && key in l.forms
    ensures key in s.entries && InSync(s.entries[key])
    ensures l.forms[key] == FormOf(s.entries[key])
    ensures ActiveBag(s.entries[key]) == BagIn(items, key) + ZeroOf(s.entries[key]).Bag()
  {
    hide RecordsPoint, NoSharing, NoOrphans, InSync, WellStamped, SameContributions, Keyed, HoldingsAgree, ForeignBag,
      ActiveBag, BagIn;
    Erasure.NothingForeign(s, a, key);
  }
}

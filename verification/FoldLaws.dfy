/** What materialization depends on: the bag of active values, not the slots that hold them. */
module FoldLaws {
  import opened Wrappers
  import opened FixPoint
  import opened PropertyEntries
  import FixPointLaws

  // -------------------------------------------------------------------------
  // Bags of active values
  // -------------------------------------------------------------------------

  ghost function BagOf(active: seq<bool>, value: seq<Raw>): multiset<Raw>
    requires |active| == |value|
  {
    multiset(ActiveValues(active, value))
  }

  ghost function ActiveBag(r: EntryRecord): multiset<Raw> {
    BagOf(r.active, r.value)
  }

  /** What slot `i` puts into the bag; nothing when the arrays end before it. */
  ghost function SlotBag(active: seq<bool>, value: seq<Raw>, i: nat): multiset<Raw>
    requires |active| == |value|
  {
    if i < |value| && active[i] then multiset{value[i]} else multiset{}
  }

  /** The arrays agree but for slot `i`, and any other slot the second ones add is inactive. */
  ghost predicate DifferAt(active: seq<bool>, value: seq<Raw>, active': seq<bool>, value': seq<Raw>, i: nat) {
    && |active| == |value| <= |value'| == |active'|
    && (forall j :: 0 <= j < |active| && j != i ==> active'[j] == active[j] && value'[j] == value[j])
    && (forall j :: |active| <= j < |active'| && j != i ==> !active'[j])
  }

  /** The bag of the first `n` slots, or of all of them when there are fewer. */
  ghost function PrefixBag(active: seq<bool>, value: seq<Raw>, n: nat): multiset<Raw>
    requires |active| == |value|
  {
    multiset(ActivePrefix(active, value, if n < |active| then n else |active|))
  }

  lemma PrefixStep(active: seq<bool>, value: seq<Raw>, n: nat)
    requires |active| == |value|
    ensures PrefixBag(active, value, n + 1) == PrefixBag(active, value, n) + SlotBag(active, value, n)
    ensures PrefixBag(active, value, 0) == multiset{}
  {
  }

  lemma Regroup(a: multiset<Raw>, b: multiset<Raw>, common: multiset<Raw>, x: multiset<Raw>, y: multiset<Raw>)
    requires a + x == b + y
    ensures (a + common) + x == (b + common) + y
  {
    assert (a + common) + x == (a + x) + common;
    assert (b + common) + y == (b + y) + common;
  }

  lemma {:induction false} PrefixChange(active: seq<bool>, value: seq<Raw>, active': seq<bool>, value': seq<Raw>,
                                        i: nat, n: nat)
    requires DifferAt(active, value, active', value', i) && n <= |active'|
    ensures var p, p' := PrefixBag(active, value, n), PrefixBag(active', value', n);
      if n <= i then p' == p else p' + SlotBag(active, value, i) == p + SlotBag(active', value', i)
  {
    hide PrefixBag, SlotBag;
    if n == 0 {
      PrefixStep(active, value, 0);
      PrefixStep(active', value', 0);
    } else {
      PrefixChange(active, value, active', value', i, n - 1);
      PrefixStep(active, value, n - 1);
      PrefixStep(active', value', n - 1);
      SlotAgrees(active, value, active', value', i, n - 1);
      if n - 1 > i {
        Regroup(PrefixBag(active', value', n - 1), PrefixBag(active, value, n - 1),
                SlotBag(active, value, n - 1), SlotBag(active, value, i), SlotBag(active', value', i));
      }
    }
  }

  lemma SlotAgrees(active: seq<bool>, value: seq<Raw>, active': seq<bool>, value': seq<Raw>, i: nat, n: nat)
    requires DifferAt(active, value, active', value', i) && n < |active'|
    ensures n != i ==> SlotBag(active', value', n) == SlotBag(active, value, n)
  {
  }

  /** Changing one slot exchanges what that slot puts into the bag. */
  lemma BagChange(active: seq<bool>, value: seq<Raw>, active': seq<bool>, value': seq<Raw>, i: nat)
    requires DifferAt(active, value, active', value', i) && i < |active'|
    ensures BagOf(active', value') + SlotBag(active, value, i) == BagOf(active, value) + SlotBag(active', value', i)
  {
    PrefixChange(active, value, active', value', i, |active'|);
    assert PrefixBag(active, value, |active'|) == BagOf(active, value);
  }

  lemma SolveExchange(x: multiset<Raw>, x': multiset<Raw>, gone: multiset<Raw>, come: multiset<Raw>)
    requires x' + gone == x + come && gone <= x
    ensures x' == x - gone + come
  {
    forall e
      ensures x'[e] == (x - gone + come)[e]
    {
      assert (x' + gone)[e] == (x + come)[e];
    }
  }

  /** What a slot puts into the bag is in the bag. */
  lemma SlotInBag(active: seq<bool>, value: seq<Raw>, i: nat)
    requires |active| == |value|
    ensures SlotBag(active, value, i) <= BagOf(active, value)
  {
    hide BagOf;
    if i < |active| {
      BagChange(active, value, active[i := false], value, i);
      assert BagOf(active[i := false], value) + SlotBag(active, value, i) == BagOf(active, value);
    }
  }

  // -------------------------------------------------------------------------
  // The additive fold
  // -------------------------------------------------------------------------

  /** The largest common value an encoding can produce. */
  const MAX_EVEN: int := INT64_MAX - 1

  function SumEven(s: seq<Raw>): int {
    if s == [] then 0 else SumEven(s[..|s| - 1]) + FloorEven(Decode(s[|s| - 1]))
  }

  function Sum(s: seq<Raw>): int {
    if s == [] then 0 else Sum(s[..|s| - 1]) + Decode(s[|s| - 1])
  }

  ghost predicate AllNonNegative(s: seq<Raw>) {
    forall v :: v in s ==> !IsNegative(v)
  }

  /** What accumulation above the largest encodable value saturates to. */
  function Capped(total: int): int {
    if total > MAX_EVEN then MAX_EVEN else total
  }

  /** Over non-negative sources the kind-3 fold from an even base is the capped exact sum. */
  lemma {:induction false} FoldAddClosedForm(base: Raw, s: seq<Raw>)
    requires Decode(base) % 2 == 0 && AllNonNegative(s)
    ensures var total := Decode(base) + SumEven(s);
      Decode(FoldAdd(base, s)) == Capped(total)
    ensures s != [] ==> Denote(FoldAdd(base, s)) == 128 * Decode(FoldAdd(base, s))
    ensures SumEven(s) >= 0 && SumEven(s) % 2 == 0
  {
    hide Decode, Encode, Denote, IsNegative, FloorEven, Clamp;
    if s != [] {
      var n := |s| - 1;
      assert forall v :: v in s[..n] ==> v in s;
      FoldAddClosedForm(base, s[..n]);
      assert s[n] in s;
      CappedStep(Decode(FoldAdd(base, s[..n])), Decode(s[n]));
    }
  }

  lemma CappedStep(total: int, d: int)
    requires total % 2 == 0 && INT64_MIN <= total <= MAX_EVEN && 0 <= d
    ensures FloorEven(d) % 2 == 0 && FloorEven(d) >= 0
    ensures FloorEven(Clamp(total + d)) == Capped(total + FloorEven(d))
  {
  }

  /** From an odd base the first source decides: it either completes the odd unit of the base or
      loses it.  From then on the running total is even. */
  lemma {:induction false} FoldAddOddBase(base: Raw, s: seq<Raw>)
    requires Decode(base) % 2 == 1 && AllNonNegative(s) && s != []
    ensures Decode(FoldAdd(base, s)) == Capped(Decode(base) - 1 + SumEven(s) + 2 * (Decode(s[0]) % 2))
    ensures Denote(FoldAdd(base, s)) == 128 * Decode(FoldAdd(base, s))
    ensures SumEven(s) >= 0 && SumEven(s) % 2 == 0
  {
    hide Decode, Encode, Denote, IsNegative, FloorEven, Clamp, Capped;
    var n := |s| - 1;
    assert s[n] in s;
    if n == 0 {
      assert s[..n] == [] && SumEven([]) == 0;
      assert FoldAdd(base, s[..n]) == base;
      OddStep(Decode(base), Decode(s[0]));
    } else {
      assert forall v :: v in s[..n] ==> v in s;
      FoldAddOddBase(base, s[..n]);
      var total := Decode(base) - 1 + SumEven(s[..n]) + 2 * (Decode(s[0]) % 2);
      CappedTwice(total, Decode(s[n]));
    }
  }

  lemma OddStep(b: int, d: int)
    requires b % 2 == 1 && INT64_MIN <= b <= INT64_MAX && 0 <= d
    ensures FloorEven(d) % 2 == 0 && FloorEven(d) >= 0
    ensures FloorEven(Clamp(b + d)) == Capped(b - 1 + FloorEven(d) + 2 * (d % 2))
  {
  }

  lemma CappedTwice(total: int, d: int)
    requires total % 2 == 0 && INT64_MIN <= Capped(total) && 0 <= d
    ensures FloorEven(d) % 2 == 0 && FloorEven(d) >= 0
    ensures FloorEven(Clamp(Capped(total) + d)) == Capped(total + FloorEven(d))
  {
  }

  /** No running total of the fold leaves the 64-bit range. */
  ghost predicate Unsaturated(base: Raw, s: seq<Raw>) {
    forall n :: 0 <= n <= |s| ==> INT64_MIN <= Decode(base) + Sum(s[..n]) <= INT64_MAX
  }

  /** On the grid the fold is the exact sum, of any signs, as long as no running total saturates. */
  lemma {:induction false} FoldAddExact(base: Raw, s: seq<Raw>)
    requires OnGrid(base) && (forall v :: v in s ==> OnGrid(v)) && Unsaturated(base, s)
    ensures Decode(FoldAdd(base, s)) == Decode(base) + Sum(s)
    ensures OnGrid(FoldAdd(base, s))
  {
    hide Decode, Encode, Denote, OnGrid;
    if s != [] {
      var n := |s| - 1;
      assert forall k :: 0 <= k <= n ==> s[..n][..k] == s[..k];
      assert forall v :: v in s[..n] ==> v in s;
      FoldAddExact(base, s[..n]);
      assert s[n] in s && s[..|s|] == s;
      FixPointLaws.GridExact(FoldAdd(base, s[..n]), s[n]);
    }
  }

  // -------------------------------------------------------------------------
  // Order independence
  // -------------------------------------------------------------------------

  function Without(s: seq<Raw>, j: nat): seq<Raw>
    requires j < |s|
  {
    s[..j] + s[j + 1..]
  }

  lemma {:induction false} SumEvenSplit(s: seq<Raw>, j: nat)
    requires j < |s|
    ensures SumEven(s) == SumEven(Without(s, j)) + FloorEven(Decode(s[j]))
  {
    hide Decode;
    var n := |s| - 1;
    if j == n {
      assert Without(s, j) == s[..n];
    } else {
      SumEvenSplit(s[..n], j);
      var t := Without(s, j);
      assert t[..|t| - 1] == Without(s[..n], j);
    }
  }

  lemma {:induction false} SumEvenOfBag(s: seq<Raw>, t: seq<Raw>)
    requires multiset(s) == multiset(t)
    ensures |s| == |t| && SumEven(s) == SumEven(t)
    decreases |s|
  {
    hide Decode, FloorEven, SumEven, Without;
    assert |multiset(s)| == |s| && |multiset(t)| == |t|;
    if s == [] {
      assert t == [];
    } else {
      assert s[0] in multiset(t);
      var j :| 0 <= j < |t| && t[j] == s[0];
      WithoutOne(s, 0);
      WithoutOne(t, j);
      var s', t' := Without(s, 0), Without(t, j);
      assert multiset(s') == multiset(s) - multiset{s[0]} && multiset(t') == multiset(t) - multiset{s[0]};
      SumEvenOfBag(s', t');
      SumEvenSplit(s, 0);
      SumEvenSplit(t, j);
    }
  }

  lemma WithoutOne(s: seq<Raw>, j: nat)
    requires j < |s|
    ensures multiset(s) == multiset(Without(s, j)) + multiset{s[j]} && |Without(s, j)| == |s| - 1
  {
    assert s == s[..j] + ([s[j]] + s[j + 1..]);
  }

  ghost predicate SameParity(s: seq<Raw>) {
    forall u, v :: u in s && v in s ==> Decode(u) % 2 == Decode(v) % 2
  }

  /** When the additive fold gives the same from every order of its sources: the base is even, or
      the sources are all even or all odd, or the total saturates anyway. */
  ghost predicate OrderFree(base: Raw, s: seq<Raw>) {
    Decode(base) % 2 == 0 || SameParity(s) || Decode(base) - 1 + SumEven(s) >= MAX_EVEN
  }

  /** Two orders of the same non-negative sources fold to equal numbers exactly when the base is
      even, or their first sources have the same parity, or the total saturates anyway. */
  lemma OrderMattersIff(base: Raw, s: seq<Raw>, t: seq<Raw>)
    requires AllNonNegative(s) && multiset(s) == multiset(t) && s != []
    ensures t != []
    ensures Equal(FoldAdd(base, s), FoldAdd(base, t)) <==>
      Decode(base) % 2 == 0 || Decode(s[0]) % 2 == Decode(t[0]) % 2 || Decode(base) - 1 + SumEven(s) >= MAX_EVEN
  {
    hide Decode, Denote, IsNegative, FoldAdd, SumEven, Compare;
    SameElements(s, t);
    SumEvenOfBag(s, t);
    if Decode(base) % 2 == 0 {
      FoldAddClosedForm(base, s);
      FoldAddClosedForm(base, t);
    } else {
      FoldAddOddBase(base, s);
      FoldAddOddBase(base, t);
      CappedApart(Decode(base) - 1 + SumEven(s), Decode(s[0]) % 2, Decode(t[0]) % 2);
    }
  }

  lemma CappedApart(x: int, p: int, q: int)
    requires x % 2 == 0 && 0 <= p <= 1 && 0 <= q <= 1
    ensures Capped(x + 2 * p) == Capped(x + 2 * q) <==> p == q || x >= MAX_EVEN
  {
  }

  /** In particular two sources swap exactly then. */
  lemma TwoSourcesSwapIff(base: Raw, u: Raw, v: Raw)
    requires !IsNegative(u) && !IsNegative(v)
    ensures Equal(FoldAdd(base, [u, v]), FoldAdd(base, [v, u])) <==>
      || Decode(base) % 2 == 0 || Decode(u) % 2 == Decode(v) % 2
      || FloorEven(Decode(base)) + FloorEven(Decode(u)) + FloorEven(Decode(v)) >= MAX_EVEN
  {
    hide Decode, Denote, IsNegative, FoldAdd, Compare;
    var s, t := [u, v], [v, u];
    assert multiset(s) == multiset(t);
    assert s[..1] == [u] && [u][..0] == [];
    assert SumEven([u]) == FloorEven(Decode(u));
    OrderMattersIff(base, s, t);
  }

  /** A source moved to the front. */
  lemma MovedToFront(s: seq<Raw>, j: nat)
    requires j < |s|
    ensures multiset([s[j]] + Without(s, j)) == multiset(s)
  {
    WithoutOne(s, j);
  }

  /** The condition is exact: whenever it fails, some order of the sources folds differently. */
  lemma OrderFreeIff(base: Raw, s: seq<Raw>)
    requires AllNonNegative(s)
    ensures OrderFree(base, s) <==> forall t: seq<Raw> :: multiset(t) == multiset(s) ==> Equal(FoldAdd(base, s), FoldAdd(base, t))
  {
    hide Decode, Denote, IsNegative, FoldAdd, SumEven, Compare, Without;
    if OrderFree(base, s) {
      forall t: seq<Raw> | multiset(t) == multiset(s)
        ensures Equal(FoldAdd(base, s), FoldAdd(base, t))
      {
        FoldOfBag(base, s, t);
      }
    } else {
      var u, v :| u in s && v in s && Decode(u) % 2 != Decode(v) % 2;
      var w := if Decode(u) % 2 != Decode(s[0]) % 2 then u else v;
      var j :| 0 <= j < |s| && s[j] == w;
      MovedToFront(s, j);
      OrderMattersIff(base, s, [s[j]] + Without(s, j));
    }
  }

  lemma {:induction false} SumIsEven(s: seq<Raw>)
    requires forall v :: v in s ==> OnGrid(v)
    ensures Sum(s) == SumEven(s)
  {
    hide Denote, Decode, OnGrid;
    if s != [] {
      assert s[|s| - 1] in s;
      FixPointLaws.DecodeMonotone(s[|s| - 1], s[|s| - 1]);
      SumIsEven(s[..|s| - 1]);
    }
  }

  /** An additive entry over non-negative sources that reads the same from every slot order. */
  ghost predicate Accumulates(r: EntryRecord) {
    AllNonNegative(ActiveValues(r.active, r.value)) && OrderFree(r.base, ActiveValues(r.active, r.value))
  }

  /** An additive entry whose values, of any signs, are on the grid and whose running totals stay in
      range in its slot order. */
  ghost predicate SumsExactly(r: EntryRecord) {
    && OnGrid(r.base) && (forall v :: v in ActiveValues(r.active, r.value) ==> OnGrid(v))
    && Unsaturated(r.base, ActiveValues(r.active, r.value))
  }

  /** Entries of equal kind and base with equal bags of active values materialize to equal
      numbers: extrema always, the additive fold when it accumulates, or when it sums exactly in both
      slot orders. */
  lemma SameBagSameValue(r: EntryRecord, t: EntryRecord)
    requires r.kind == t.kind && r.base == t.base && ActiveBag(r) == ActiveBag(t)
    requires r.kind in {6, 7} || (r.kind == 3 && (Accumulates(r) || (SumsExactly(r) && SumsExactly(t))))
    ensures Materialize(r).Some? && Materialize(t).Some?
    ensures Equal(Materialize(r).value, Materialize(t).value)
  {
    hide Decode, Denote, Compare, IsNegative, FoldAdd, FirstMin, FirstMax, OnGrid, Unsaturated;
    var a, b := ActiveValues(r.active, r.value), ActiveValues(t.active, t.value);
    if r.kind == 3 && Accumulates(r) {
      FoldOfBag(r.base, a, b);
    } else if r.kind == 3 {
      ExactFoldOfBag(r.base, a, b);
    } else {
      ExtremaOfBag(a, b);
    }
  }

  lemma ExactFoldOfBag(base: Raw, a: seq<Raw>, b: seq<Raw>)
    requires multiset(a) == multiset(b) && OnGrid(base) && (forall v :: v in a ==> OnGrid(v)) && (forall v :: v in b ==> OnGrid(v))
    requires Unsaturated(base, a) && Unsaturated(base, b)
    ensures Equal(FoldAdd(base, a), FoldAdd(base, b))
  {
    hide Decode, Denote, FoldAdd, OnGrid, Unsaturated, Sum, SumEven, Compare;
    SumEvenOfBag(a, b);
    SumIsEven(a);
    SumIsEven(b);
    FoldAddExact(base, a);
    FoldAddExact(base, b);
    FixPointLaws.GridOrder(FoldAdd(base, a), FoldAdd(base, b));
  }

  lemma FoldOfBag(base: Raw, a: seq<Raw>, b: seq<Raw>)
    requires multiset(a) == multiset(b) && AllNonNegative(a) && OrderFree(base, a)
    ensures Equal(FoldAdd(base, a), FoldAdd(base, b))
  {
    hide Decode, Denote, IsNegative, FoldAdd, SumEven;
    SameElements(a, b);
    if a == [] {
      assert b == [];
    } else {
      assert a[0] in a && b[0] in b;
      OrderMattersIff(base, a, b);
    }
  }

  lemma ExtremaOfBag(a: seq<Raw>, b: seq<Raw>)
    requires multiset(a) == multiset(b)
    ensures |a| == |b|
    ensures a != [] ==> Denote(FirstMin(a)) == Denote(FirstMin(b)) && Denote(FirstMax(a)) == Denote(FirstMax(b))
  {
    hide Denote, FirstMin, FirstMax, IsFirstLeast, IsFirstGreatest;
    SameElements(a, b);
    if a != [] {
      FirstLeastFacts(a, FirstMin(a));
      FirstLeastFacts(b, FirstMin(b));
      FirstGreatestFacts(a, FirstMax(a));
      FirstGreatestFacts(b, FirstMax(b));
    }
  }

  lemma SameElements(a: seq<Raw>, b: seq<Raw>)
    requires multiset(a) == multiset(b)
    ensures |a| == |b| && forall v :: v in a <==> v in b
  {
    assert |multiset(a)| == |a| && |multiset(b)| == |b|;
    assert forall v :: v in a <==> v in multiset(a);
    assert forall v :: v in b <==> v in multiset(b);
  }

  // -------------------------------------------------------------------------
  // The multiplicative fold, and entries without slots
  // -------------------------------------------------------------------------

  /** The exact product of the base and the sources, a count of 2^-26 to the power |s| + 1. */
  function ExactProduct(base: Raw, s: seq<Raw>): int {
    if s == [] then Decode(base) else ExactProduct(base, s[..|s| - 1]) * Decode(s[|s| - 1])
  }

  function UnitPower(n: nat): (p: nat)
    ensures p >= 1
  {
    if n == 0 then 1 else UnitPower(n - 1) * FixPointLaws.UNIT
  }

  /** How much a fold over `s` may have lost: two counts in its last step, and what the steps before
      it lost, multiplied along. */
  function ProductSlack(s: seq<Raw>): int {
    if s == [] then 0
    else ProductSlack(s[..|s| - 1]) * Decode(s[|s| - 1]) + 2 * UnitPower(|s|)
  }

  /** No product of the fold saturates. */
  ghost predicate ProductsFit(base: Raw, s: seq<Raw>) {
    forall n :: 0 <= n < |s| ==> FixPointLaws.Fits(Decode(FoldMultiply(base, s[..n])) * Decode(s[n]) / FixPointLaws.UNIT)
  }

  /** Over non-negative sources the kind-4 fold never exceeds the exact product, and falls short of it
      by no more than the slack of its steps. */
  lemma {:induction false} FoldMultiplyError(base: Raw, s: seq<Raw>)
    requires AllNonNegative(s) && ProductsFit(base, s)
    ensures 0 <= ExactProduct(base, s) - Decode(FoldMultiply(base, s)) * UnitPower(|s|) <= ProductSlack(s)
  {
    hide Decode, Denote, IsNegative, Encode, Multiply, FoldMultiply, ExactProduct, UnitPower, ProductSlack, FixPointLaws.Fits;
    ProductUnfolds(base, s);
    if s != [] {
      var n := |s| - 1;
      var init := s[..n];
      assert forall v :: v in init ==> v in s;
      assert forall k :: 0 <= k < n ==> init[..k] == s[..k];
      FoldMultiplyError(base, init);
      assert s[n] in s;
      FixPointLaws.ProductLoss(FoldMultiply(base, init), s[n]);
      SlackStep(ExactProduct(base, init), Decode(FoldMultiply(base, init)), UnitPower(n), Decode(s[n]),
                Decode(FoldMultiply(base, s)), ProductSlack(init));
    }
  }

  lemma ProductUnfolds(base: Raw, s: seq<Raw>)
    ensures s == [] ==> ExactProduct(base, s) == Decode(FoldMultiply(base, s)) * UnitPower(|s|) && ProductSlack(s) == 0
    ensures s != [] ==>
      var n := |s| - 1;
      && ExactProduct(base, s) == ExactProduct(base, s[..n]) * Decode(s[n])
      && FoldMultiply(base, s) == Multiply(FoldMultiply(base, s[..n]), s[n])
      && UnitPower(|s|) == UnitPower(n) * FixPointLaws.UNIT
      && ProductSlack(s) == ProductSlack(s[..n]) * Decode(s[n]) + 2 * UnitPower(|s|)
  {
    hide Decode, Multiply;
  }

  lemma SlackStep(e: int, f: int, p: nat, d: int, g: int, slack: int)
    requires 0 <= e - f * p <= slack && 0 <= d && 0 <= f * d - FixPointLaws.UNIT * g < 2 * FixPointLaws.UNIT
    ensures 0 <= e * d - g * (p * FixPointLaws.UNIT) <= slack * d + 2 * (p * FixPointLaws.UNIT)
  {
    var lost, step := e - f * p, f * d - FixPointLaws.UNIT * g;
    FixPointLaws.MulOrder(0, lost, d);
    FixPointLaws.MulOrder(lost, slack, d);
    FixPointLaws.MulOrder(0, step, p);
    FixPointLaws.MulOrder(step, 2 * FixPointLaws.UNIT, p);
    Rearranged(e, f, p, d, g);
  }

  lemma Rearranged(e: int, f: int, p: int, d: int, g: int)
    ensures e * d - g * (p * FixPointLaws.UNIT) == (e - f * p) * d + (f * d - FixPointLaws.UNIT * g) * p
  {
  }

  /** An entry that holds no slots reads its base, whatever its supported kind. */
  lemma NothingStoredReadsBase(r: EntryRecord)
    requires r.value == [] && r.kind in {1, 2, 3, 4, 6, 7}
    ensures Materialize(r) == Some(r.base)
  {
  }
}

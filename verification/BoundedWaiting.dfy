/** Nobody waits forever: a bound on how many turns pass before an entity acts. */
module BoundedWaiting {
  import opened Wrappers
  import opened FixPoint
  import opened BattleStates
  import opened PropertyRuntime
  import opened TurnRuntime
  import opened TurnLaws
  import opened SlotLaws
  import FixPointLaws

  datatype Completion = Completion(recharge: Raw, provenance: string)

  /** One round: advance to the next actor, then acknowledge its action with a recharge. */
  function Round(c: Clock, k: Completion): Option<(Clock, EntityId)> {
    var (c1, advanced) := Advance(c);
    if advanced.Err? then None
    else
      var (c2, failure) := Acknowledge(c1, advanced.value.actor, k.recharge, k.provenance);
      if failure.Some? then None else Some((c2, advanced.value.actor))
  }

  /** The actors of a run of rounds, in order. */
  function Actors(c: Clock, ks: seq<Completion>): seq<EntityId>
    decreases |ks|
  {
    if ks == [] then []
    else
      match Round(c, ks[0])
      case None => []
      case Some((c', actor)) => [actor] + Actors(c', ks[1..])
  }

  /** Remaining delay in units of 2^-26. */
  function Remaining(c: Clock, e: EntityId): int {
    Decode(Delay(c.store.entries, e))
  }

  ghost predicate OnGridDelays(c: Clock) {
    c.timeline.Some? && forall e :: e in c.timeline.value.ids ==> OnGrid(Delay(c.store.entries, e))
  }

  /** A recharge on the grid of at least `d`. */
  ghost predicate Recharges(k: Completion, d: int) {
    OnGrid(k.recharge) && Decode(k.recharge) >= d
  }

  // -------------------------------------------------------------------------
  // One round
  // -------------------------------------------------------------------------

  ghost predicate SameMembers(c: Clock, c': Clock) {
    c.timeline.Some? && c'.timeline.Some?
    && forall e :: e in c'.timeline.value.ids <==> e in c.timeline.value.ids
  }

  lemma AcknowledgeLaw(c: Clock, actor: EntityId, k: Completion)
    requires CheckTimeline(c.timeline).Ok? && c.timeline.value.phase == Active && c.timeline.value.actor == Some(actor)
    requires Steady(c.store.entries, c.timeline.value.ids) && actor in c.timeline.value.ids && Denote(k.recharge) >= 0
    ensures var (c', failure) := Acknowledge(c, actor, k.recharge, k.provenance);
      && failure == None && MayAdvance(c') && SameMembers(c, c')
      && Delay(c'.store.entries, actor) == k.recharge
      && (forall e :: e in c.timeline.value.ids && e != actor ==> Delay(c'.store.entries, e) == Delay(c.store.entries, e))
  {
    hide TracksSlotZero, IsNegative, Denote, ModifySourceZero, Distinct;
    SetDelay(c.store, actor, k.recharge);
    var (c', failure) := Acknowledge(c, actor, k.recharge, k.provenance);
    forall e | e in c.timeline.value.ids
      ensures e != actor ==> Delay(c'.store.entries, e) == Delay(c.store.entries, e)
      ensures DelayKey(e) in c'.store.entries && TracksSlotZero(c'.store.entries[DelayKey(e)])
    {
      if e != actor {
        assert DelayKey(e) != DelayKey(actor);
      }
    }
  }

  /** From `c` to `c'` everybody on the list lost the delay of `actor`. */
  ghost predicate AllLost(c: Clock, c': Clock, actor: EntityId) {
    && c.timeline.Some? && actor in c.timeline.value.ids
    && (forall e :: e in c.timeline.value.ids ==> 0 <= Remaining(c, actor) <= Remaining(c, e))
    && (forall e :: e in c.timeline.value.ids ==>
         OnGrid(Delay(c'.store.entries, e)) && Remaining(c', e) == Remaining(c, e) - Remaining(c, actor))
  }

  /** From `c` to `c'`, after a round of `actor`: everybody else's delay dropped by the actor's, and
      the actor's is the recharge. */
  ghost predicate RoundDone(c: Clock, c': Clock, actor: EntityId, k: Completion) {
    && MayAdvance(c') && OnGridDelays(c') && SameMembers(c, c') && actor in c.timeline.value.ids
    && (forall e :: e in c.timeline.value.ids ==> 0 <= Remaining(c, actor) <= Remaining(c, e))
    && Remaining(c', actor) == Decode(k.recharge)
    && (forall e :: e in c.timeline.value.ids && e != actor ==>
         Remaining(c', e) == Remaining(c, e) - Remaining(c, actor))
  }

  lemma RoundComposes(c: Clock, c1: Clock, c2: Clock, actor: EntityId, k: Completion)
    requires AllLost(c, c1, actor) && SameMembers(c, c1) && SameMembers(c1, c2) && MayAdvance(c2)
    requires Recharges(k, 0) && Delay(c2.store.entries, actor) == k.recharge
    requires forall e :: e in c1.timeline.value.ids && e != actor ==> Delay(c2.store.entries, e) == Delay(c1.store.entries, e)
    ensures RoundDone(c, c2, actor, k)
  {
    hide Decode, OnGrid, Delay, MayAdvance;
  }

  /** Taking the least delay from another one, in units of 2^-26. */
  lemma DelayLoss(delay: Raw, least: Raw)
    requires OnGrid(delay) && OnGrid(least) && 0 <= Denote(least) <= Denote(delay)
    ensures 0 <= Decode(least) <= Decode(delay)
    ensures OnGrid(After(delay, least)) && Decode(After(delay, least)) == Decode(delay) - Decode(least)
  {
    hide Denote, Decode, OnGrid, After;
    ExactPass(delay, least);
    FixPointLaws.DecodeMonotone(least, delay);
  }

  /** A round among on-grid delays always succeeds. */
  lemma RoundLaw(c: Clock, k: Completion)
    requires MayAdvance(c) && OnGridDelays(c) && Recharges(k, 0)
    ensures Round(c, k).Some? && RoundDone(c, Round(c, k).value.0, Round(c, k).value.1, k)
  {
    hide Advance, Acknowledge, Denote, Decode, OnGrid, IsNegative, Subtract, Add, After, Delay, IsStableSort, OthersKept,
      TracksSlotZero, Distinct;
    AdvanceLaw(c);
    var (c1, advanced) := Advance(c);
    var actor := advanced.value.actor;
    assert c.timeline.Some? && SameMembers(c, c1) && AllLost(c, c1, actor) by {
      forall e | e in c.timeline.value.ids
        ensures 0 <= Remaining(c, actor) <= Remaining(c, e)
        ensures OnGrid(Delay(c1.store.entries, e)) && Remaining(c1, e) == Remaining(c, e) - Remaining(c, actor)
      {
        DelayLoss(Delay(c.store.entries, e), Delay(c.store.entries, actor));
      }
    }
    RechargeNonNegative(k);
    AcknowledgeLaw(c1, actor, k);
    var c2 := Acknowledge(c1, actor, k.recharge, k.provenance).0;
    RoundComposes(c, c1, c2, actor, k);
  }

  lemma RechargeNonNegative(k: Completion)
    requires Recharges(k, 0)
    ensures Denote(k.recharge) >= 0
  {
    hide Denote, Decode, OnGrid;
  }

  // -------------------------------------------------------------------------
  // Budgets
  // -------------------------------------------------------------------------

  /** How many more times an entity with delay `r` can act before one with delay `x` does, when each
      recharge is at least `d`. */
  function Budget(x: int, r: int, d: int): nat
    requires d > 0
  {
    if r > x then 0 else (x - r) / d + 1
  }

  lemma QuotientMonotone(p: int, q: int, d: int)
    requires 0 <= p <= q && d > 0
    ensures 0 <= p / d <= q / d
  {
    var a, b := p / d, q / d;
    assert p == d * a + p % d && q == d * b + q % d;
    if a > b {
      MulAtLeast(d, b + 1, a);
    }
  }

  lemma MulAtLeast(d: int, b: int, a: int)
    requires d > 0 && a >= b
    ensures d * a >= d * b
  {
  }

  lemma QuotientDrop(p: int, d: int)
    requires p >= d > 0
    ensures (p - d) / d == p / d - 1
  {
    var q, r := p / d, p % d;
    assert p == d * q + r;
    assert p - d == d * (q - 1) + r;
    QuotientOf(p - d, d, q - 1, r);
  }

  lemma QuotientOf(p: int, d: int, q: int, r: int)
    requires d > 0 && p == d * q + r && 0 <= r < d
    ensures p / d == q
  {
    var q', r' := p / d, p % d;
    assert p == d * q' + r';
    if q' > q {
      MulAtLeast(d, q + 1, q');
    } else if q > q' {
      MulAtLeast(d, q' + 1, q);
    }
  }

  /** Acting and recharging costs at least one of the budget. */
  lemma RechargeCosts(x: int, r: int, recharge: int, d: int)
    requires 0 <= r <= x && recharge >= d > 0
    ensures Budget(x - r, recharge, d) <= Budget(x, r, d) - 1
  {
    if recharge <= x - r {
      QuotientDrop(x - r, d);
      QuotientMonotone(x - r - recharge, x - r - d, d);
    }
    QuotientMonotone(0, x - r, d);
  }

  /** The budgets of everybody but `x` over a list of entities. */
  function Total(c: Clock, who: seq<EntityId>, x: EntityId, d: int): nat
    requires d > 0
  {
    if who == [] then 0
    else (if who[0] == x then 0 else Budget(Remaining(c, x), Remaining(c, who[0]), d)) + Total(c, who[1..], x, d)
  }

  lemma {:induction false} TotalBound(c: Clock, who: seq<EntityId>, x: EntityId, d: int, b: nat)
    requires d > 0 && forall e :: e in who ==> Budget(Remaining(c, x), Remaining(c, e), d) <= b
    ensures Total(c, who, x, d) <= |who| * b
  {
    hide Remaining, Budget;
    if who != [] {
      assert who[0] in who && forall y :: y in who[1..] ==> y in who;
      TotalBound(c, who[1..], x, d, b);
      OneMore(|who[1..]|, b);
    }
  }

  lemma OneMore(n: nat, b: nat)
    ensures (n + 1) * b == n * b + b
  {
  }

  lemma BudgetBound(x: int, r: int, d: int)
    requires d > 0 && 0 <= r && 0 <= x
    ensures 0 <= x / d && Budget(x, r, d) <= x / d + 1
  {
    QuotientMonotone(0, x, d);
    if r <= x {
      QuotientMonotone(x - r, x, d);
    }
  }

  lemma {:induction false} TotalSplit(c: Clock, p: seq<EntityId>, q: seq<EntityId>, x: EntityId, d: int)
    requires d > 0
    ensures Total(c, p + q, x, d) == Total(c, p, x, d) + Total(c, q, x, d)
  {
    if p == [] {
      assert p + q == q;
    } else {
      assert (p + q)[1..] == p[1..] + q;
      TotalSplit(c, p[1..], q, x, d);
    }
  }

  lemma TotalWithout(c: Clock, p: seq<EntityId>, q: seq<EntityId>, x: EntityId, d: int)
    requires d > 0
    ensures Total(c, p + ([x] + q), x, d) == Total(c, p, x, d) + Total(c, q, x, d)
  {
    hide Remaining, Budget;
    TotalSplit(c, p, [x] + q, x, d);
    assert ([x] + q)[1..] == q;
  }

  lemma BudgetsBound(c: Clock, who: seq<EntityId>, x: EntityId, d: int)
    requires d > 0 && Remaining(c, x) >= 0 && forall e :: e in who ==> Remaining(c, e) >= 0
    ensures 0 <= Remaining(c, x) / d
    ensures forall e :: e in who ==> Budget(Remaining(c, x), Remaining(c, e), d) <= Remaining(c, x) / d + 1
  {
    hide Remaining, Budget;
    BudgetBound(Remaining(c, x), 0, d);
    forall e | e in who
      ensures Budget(Remaining(c, x), Remaining(c, e), d) <= Remaining(c, x) / d + 1
    {
      BudgetBound(Remaining(c, x), Remaining(c, e), d);
    }
  }

  /** The bound at the start: everybody else may act at most once for each `d` in `x`'s delay, and
      once more. */
  lemma InitialTotal(c: Clock, who: seq<EntityId>, x: EntityId, d: int)
    requires d > 0 && x in who && forall e :: e in who ==> Remaining(c, e) >= 0
    ensures Total(c, who, x, d) <= (|who| - 1) * (Remaining(c, x) / d + 1)
  {
    hide Remaining, Budget, Total;
    var i :| 0 <= i < |who| && who[i] == x;
    var p, q := who[..i], who[i + 1..];
    assert who == p + ([x] + q);
    BudgetsBound(c, who, x, d);
    var b := Remaining(c, x) / d + 1;
    TotalWithout(c, p, q, x, d);
    TotalBound(c, p, x, d, b);
    TotalBound(c, q, x, d, b);
    SumOfProducts(|p|, |q|, b);
  }

  lemma SumOfProducts(p: nat, q: nat, b: nat)
    ensures p * b + q * b == (p + q) * b
  {
  }

  /** A round in which `x` does not act lowers the total. */
  lemma {:induction false} RoundLowersTotal(c: Clock, c': Clock, who: seq<EntityId>, x: EntityId, actor: EntityId, d: int)
    requires d > 0 && Distinct(who) && actor != x && 0 <= Remaining(c, actor) <= Remaining(c, x)
    requires Remaining(c', actor) >= d && Remaining(c', x) == Remaining(c, x) - Remaining(c, actor)
    requires forall e :: e in who && e != actor ==> Remaining(c', e) == Remaining(c, e) - Remaining(c, actor)
    ensures Total(c', who, x, d) <= Total(c, who, x, d) - (if actor in who then 1 else 0)
  {
    hide Remaining;
    if who != [] {
      assert who[0] in who && forall e :: e in who[1..] ==> e in who;
      RoundLowersTotal(c, c', who[1..], x, actor, d);
      if who[0] == actor {
        RechargeCosts(Remaining(c, x), Remaining(c, actor), Remaining(c', actor), d);
      }
    }
  }

  // -------------------------------------------------------------------------
  // Runs
  // -------------------------------------------------------------------------

  lemma {:induction false} WaitsAtMost(c: Clock, ks: seq<Completion>, who: seq<EntityId>, x: EntityId, d: int)
    requires MayAdvance(c) && OnGridDelays(c) && d > 0 && forall k :: k in ks ==> Recharges(k, d)
    requires Distinct(who) && x in who && forall e :: e in who <==> e in c.timeline.value.ids
    requires |ks| > Total(c, who, x, d)
    ensures |Actors(c, ks)| == |ks|
    ensures exists i :: 0 <= i <= Total(c, who, x, d) && Actors(c, ks)[i] == x
    decreases |ks|
  {
    hide MayAdvance, OnGridDelays, Round, Remaining, Total, Distinct, OnGrid, Decode;
    assert ks[0] in ks && forall k :: k in ks[1..] ==> k in ks;
    RoundLaw(c, ks[0]);
    var (c', actor) := Round(c, ks[0]).value;
    if actor == x {
      AllRoundsSucceed(c', ks[1..]);
      assert Actors(c, ks)[0] == x;
    } else {
      RoundLowersTotal(c, c', who, x, actor, d);
      WaitsAtMost(c', ks[1..], who, x, d);
      var i :| 0 <= i <= Total(c', who, x, d) && Actors(c', ks[1..])[i] == x;
      assert Actors(c, ks)[i + 1] == x;
    }
  }

  lemma {:induction false} AllRoundsSucceed(c: Clock, ks: seq<Completion>)
    requires MayAdvance(c) && OnGridDelays(c) && forall k :: k in ks ==> Recharges(k, 0)
    ensures |Actors(c, ks)| == |ks|
    decreases |ks|
  {
    hide MayAdvance, OnGridDelays, Round, Remaining;
    if ks != [] {
      assert ks[0] in ks && forall k :: k in ks[1..] ==> k in ks;
      RoundLaw(c, ks[0]);
      AllRoundsSucceed(Round(c, ks[0]).value.0, ks[1..]);
    }
  }

  /** Bounded waiting.  With n on-grid delays and every recharge at least d > 0, an entity with
      remaining delay D acts within (n - 1)(D / d + 1) + 1 rounds, however ties are broken and
      whatever the recharges are. */
  lemma EveryoneActs(c: Clock, ks: seq<Completion>, x: EntityId, d: int)
    requires MayAdvance(c) && OnGridDelays(c) && x in c.timeline.value.ids
    requires d > 0 && forall k :: k in ks ==> Recharges(k, d)
    requires |ks| >= (|c.timeline.value.ids| - 1) * (Remaining(c, x) / d + 1) + 1
    ensures |Actors(c, ks)| == |ks|
    ensures exists i :: 0 <= i < (|c.timeline.value.ids| - 1) * (Remaining(c, x) / d + 1) + 1 && Actors(c, ks)[i] == x
  {
    hide MayAdvance, OnGridDelays, Remaining, Distinct, Recharges, Total;
    MembersDistinct(c);
    var who := c.timeline.value.ids;
    forall e | e in who
      ensures Remaining(c, e) >= 0
    {
      SteadyRemaining(c, e);
    }
    InitialTotal(c, who, x, d);
    WaitsAtMost(c, ks, who, x, d);
    var i :| 0 <= i <= Total(c, who, x, d) && Actors(c, ks)[i] == x;
  }

  lemma MembersDistinct(c: Clock)
    requires MayAdvance(c)
    ensures c.timeline.Some? && Distinct(c.timeline.value.ids)
  {
    hide Steady, Distinct, IsNegative;
  }

  lemma SteadyRemaining(c: Clock, e: EntityId)
    requires MayAdvance(c) && e in c.timeline.value.ids
    ensures Remaining(c, e) >= 0
  {
    hide Denote, Decode, TracksSlotZero, CheckTimeline;
    assert Due(c.store.entries, e) >= 0;
  }
}

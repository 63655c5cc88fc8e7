/** The ordinary branch of the FormulaType 4 heal amount. */
module Healing {
  import opened FixPoint
  import opened FixPointLaws

  function One(): Raw {
    FromInt32(1)
  }

  function Configured(max: Raw, current: Raw, percentage: Raw, flat: Raw): Raw {
    Add(Multiply(Subtract(max, current), percentage), flat)
  }

  function Factor(healerRatio: Raw, takenRatio: Raw): Raw {
    Add(Add(One(), healerRatio), takenRatio)
  }

  function HealAmount(max: Raw, current: Raw, percentage: Raw, flat: Raw, healerRatio: Raw, takenRatio: Raw): Raw {
    var amount := Multiply(Multiply(Configured(max, current, percentage, flat), Factor(healerRatio, takenRatio)), One());
    if IsPositive(amount) then amount else 0
  }

  lemma OneIsUnit()
    ensures Decode(One()) == 0x400_0000 && OnGrid(One())
  {
    hide FromInt32, Denote, Decode;
    GridOrder(One(), One());
    DecodeMonotone(One(), One());
  }

  /** Multiplying by the bridge's one never changes an on-grid value, the largest included. */
  lemma TimesOne(a: Raw)
    requires OnGrid(a)
    ensures Equal(Multiply(a, One()), a)
  {
    hide FromInt32, Denote, Decode, OnGrid, Compare, Encode, One;
    OneIsUnit();
    DecodeMonotone(a, a);
    assert Decode(a) * 0x400_0000 / 0x400_0000 == Decode(a);
  }

  /** So the amount is the value of the product where positive, and zero elsewhere. */
  lemma AmountInValue(max: Raw, current: Raw, percentage: Raw, flat: Raw, healerRatio: Raw, takenRatio: Raw)
    ensures
      var product := Multiply(Configured(max, current, percentage, flat), Factor(healerRatio, takenRatio));
      var d := Denote(HealAmount(max, current, percentage, flat, healerRatio, takenRatio));
      d == if Denote(product) > 0 then Denote(product) else 0
  {
    hide Denote, Decode, OnGrid, Compare, Configured, Factor, One, Encode, IsPositive;
    TimesOne(Multiply(Configured(max, current, percentage, flat), Factor(healerRatio, takenRatio)));
    assert Denote(0) == 0 by {
      assert IsZero(0);
    }
  }

  /** A heal never has a negative amount, and with a non-negative percentage and factor it never
      grows with the current HP: whoever has lost less is healed by no more. */
  lemma HealAntitone(max: Raw, current: Raw, current': Raw, percentage: Raw, flat: Raw, healerRatio: Raw, takenRatio: Raw)
    ensures !IsNegative(HealAmount(max, current, percentage, flat, healerRatio, takenRatio))
    ensures LessEqual(current, current') && !IsNegative(percentage) && !IsNegative(Factor(healerRatio, takenRatio)) ==>
      LessEqual(HealAmount(max, current', percentage, flat, healerRatio, takenRatio),
                HealAmount(max, current, percentage, flat, healerRatio, takenRatio))
  {
    hide Denote, Decode, OnGrid, Compare, Encode, Add, Subtract, Multiply, Factor, HealAmount;
    AmountInValue(max, current, percentage, flat, healerRatio, takenRatio);
    AmountInValue(max, current', percentage, flat, healerRatio, takenRatio);
    var factor := Factor(healerRatio, takenRatio);
    if LessEqual(current, current') && !IsNegative(percentage) && !IsNegative(factor) {
      var base, base' := Subtract(max, current), Subtract(max, current');
      SubtractMonotone(max, max, current', current);
      MultiplyMonotone(base', base, percentage);
      AddMonotone(Multiply(base', percentage), Multiply(base, percentage), flat, flat);
      MultiplyMonotone(Configured(max, current', percentage, flat), Configured(max, current, percentage, flat), factor);
    }
  }

  /** A target at or above its maximum gets nothing beyond a positive flat part. */
  lemma FullTargetNeedsFlatPart(max: Raw, current: Raw, percentage: Raw, flat: Raw, healerRatio: Raw, takenRatio: Raw)
    requires LessEqual(max, current) && !IsNegative(percentage) && !IsNegative(Factor(healerRatio, takenRatio))
    requires !IsPositive(flat)
    ensures HealAmount(max, current, percentage, flat, healerRatio, takenRatio) == 0
  {
    hide Denote, Decode, OnGrid, Compare, Encode, Factor, One, IsPositive, IsNegative;
    var factor := Factor(healerRatio, takenRatio);
    var base := Subtract(max, current);
    DecodeMonotone(max, current);
    var x := Decode(max) - Decode(current);
    assert Decode(base) <= 0;
    MulOrder(Decode(base), 0, Decode(percentage));
    var configured := Configured(max, current, percentage, flat);
    assert Decode(Multiply(base, percentage)) <= 0;
    assert Decode(configured) <= 0;
    MulOrder(Decode(configured), 0, Decode(factor));
    AmountInValue(max, current, percentage, flat, healerRatio, takenRatio);
  }

  /** No step of the formula saturates. */
  ghost predicate InRange(max: Raw, current: Raw, percentage: Raw, flat: Raw, healerRatio: Raw, takenRatio: Raw) {
    var base := Decode(max) - Decode(current);
    var scaled := Decode(Multiply(Subtract(max, current), percentage));
    && Fits(base) && Fits(base * Decode(percentage) / 0x400_0000) && Fits(scaled + Decode(flat))
    && Fits(0x400_0000 + Decode(healerRatio))
    && Fits(0x400_0000 + Decode(healerRatio) + Decode(takenRatio))
    && Fits(Decode(Configured(max, current, percentage, flat)) * Decode(Factor(healerRatio, takenRatio)) / 0x400_0000)
  }

  /** Error of the whole formula: absent saturation, for on-grid inputs and a non-negative factor,
      the product falls short of the exact (max - current) * percentage + flat times the factor
      by less than two units of 2^-26 times (1 + factor), and never exceeds it.  Numbers are counts
      of 2^-26, so the exact result counts in 2^-78. */
  lemma HealError(max: Raw, current: Raw, percentage: Raw, flat: Raw, healerRatio: Raw, takenRatio: Raw)
    requires OnGrid(max) && OnGrid(current) && OnGrid(percentage) && OnGrid(flat) && OnGrid(healerRatio) && OnGrid(takenRatio)
    requires InRange(max, current, percentage, flat, healerRatio, takenRatio)
    requires 0 <= Decode(Factor(healerRatio, takenRatio))
    ensures
      var unit := 0x400_0000;
      var factor := unit + Decode(healerRatio) + Decode(takenRatio);
      var exact := ((Decode(max) - Decode(current)) * Decode(percentage) + Decode(flat) * unit) * factor;
      var product := Decode(Multiply(Configured(max, current, percentage, flat), Factor(healerRatio, takenRatio)));
      0 <= exact - product * unit * unit < 2 * unit * unit + 2 * unit * factor
  {
    hide Decode, Denote, OnGrid, Encode, Add, Subtract, Multiply, One;
    var unit := 0x400_0000;
    OneIsUnit();
    var base := Subtract(max, current);
    var scaled := Multiply(base, percentage);
    var configured := Configured(max, current, percentage, flat);
    var factor := Factor(healerRatio, takenRatio);
    MultiplyOnGrid(base, percentage);
    AddOnGrid(One(), healerRatio);
    GridExact(max, current);
    GridExact(scaled, flat);
    GridExact(One(), healerRatio);
    GridExact(Add(One(), healerRatio), takenRatio);
    ProductLoss(base, percentage);
    ProductLoss(configured, factor);
    var p := Decode(base) * Decode(percentage) + Decode(flat) * unit;
    assert 0 <= p - unit * Decode(configured) < 2 * unit;
    LossTimes(p, Decode(configured), Decode(factor), Decode(Multiply(configured, factor)));
  }

  lemma MultiplyOnGrid(a: Raw, b: Raw)
    ensures OnGrid(Multiply(a, b))
  {
    hide Decode, Denote, OnGrid;
  }

  lemma AddOnGrid(a: Raw, b: Raw)
    ensures OnGrid(Add(a, b))
  {
    hide Decode, Denote, OnGrid;
  }

  lemma LossTimes(p: int, c: int, f: int, a: int)
    requires 0 <= p - 0x400_0000 * c < 2 * 0x400_0000 && 0 <= f
    requires 0 <= c * f - 0x400_0000 * a < 2 * 0x400_0000
    ensures 0 <= p * f - a * 0x400_0000 * 0x400_0000 < 2 * 0x400_0000 * 0x400_0000 + 2 * 0x400_0000 * f
  {
    var r := p - 0x400_0000 * c;
    assert p * f == 0x400_0000 * (c * f) + r * f;
    MulOrder(0, r, f);
    MulOrder(r, 2 * 0x400_0000, f);
  }
}

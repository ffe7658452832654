/** The `Unit` quantity: an amount, a unit name and the conversion table that gives the
    name its meaning. Every operation builds a new value; none touches the table. */
module Units {
  import opened Matrices

  /** `UnknownUnit`: the quantity's own unit has no row in its table (the lookup throws).
      `NoConversionPath`: the row exists but has no factor to the target unit
      (the lookup yields a non-number).
      `InvalidAmount`: the amount would not be a finite number. */
  datatype Error = UnknownUnit | NoConversionPath | InvalidAmount

  datatype Result<T> = Ok(value: T) | Err(error: Error)

  datatype Unit = Unit(amount: real, unit: string, table: Matrix)

  /** `valid()`: the unit is a key of the table, so that no lookup from it throws. */
  predicate IsValid(q: Unit)
    ensures !IsValid(q) ==> Get(q, q.unit) == Err(UnknownUnit)
    ensures IsValid(q) <==> forall u :: Get(q, u) != Err(UnknownUnit)
  {
    q.unit in q.table
  }

  /** `get(toUnit)`: the amount expressed in `toUnit`. */
  function Get(q: Unit, toUnit: string): (r: Result<real>)
    ensures r.Ok? <==> Has(q.table, q.unit, toUnit)
    ensures r == Err(UnknownUnit) <==> q.unit !in q.table
  {
    if q.unit !in q.table then Err(UnknownUnit)
    else if toUnit !in q.table[q.unit] then Err(NoConversionPath)
    else Ok(q.amount * q.table[q.unit][toUnit])
  }

  /** `to(toUnit)`: the same quantity expressed in `toUnit`. */
  function To(q: Unit, toUnit: string): (r: Result<Unit>)
    ensures r.Ok? ==> r.value.unit == toUnit && r.value.table == q.table && Get(q, toUnit) == Ok(r.value.amount)
    ensures r.Err? ==> Get(q, toUnit) == Err(r.error)
  {
    match Get(q, toUnit)
    case Ok(x) => Ok(Unit(x, toUnit, q.table))
    case Err(e) => Err(e)
  }

  function WithAmount(q: Unit, amount: real): (r: Unit)
    ensures r.unit == q.unit && r.table == q.table && r.amount == amount
  {
    Unit(amount, q.unit, q.table)
  }

  /** `negate()`: the same unit and table, and the opposite size in every scale. */
  function Negate(q: Unit): (r: Unit)
    ensures r.unit == q.unit && r.table == q.table
    ensures forall w | q.unit in w :: Magnitude(r, w) == -Magnitude(q, w)
  {
    WithAmount(q, -q.amount)
  }

  /** `mul(k)`: scale the amount by a plain number. */
  function Mul(q: Unit, k: real): (r: Unit)
    ensures r.unit == q.unit && r.table == q.table
    ensures forall w | q.unit in w :: Magnitude(r, w) == k * Magnitude(q, w)
  {
    WithAmount(q, q.amount * k)
  }

  /** `div(k)`: divide the amount by a plain number; dividing by zero gives no finite amount. */
  function Div(q: Unit, k: real): (r: Result<Unit>)
    ensures r.Err? <==> k == 0.0
    ensures r.Err? ==> r.error == InvalidAmount
    ensures r.Ok? ==> r.value.unit == q.unit && r.value.table == q.table && Mul(r.value, k) == q
  {
    if k == 0.0 then Err(InvalidAmount) else Ok(WithAmount(q, q.amount / k))
  }

  /** `add(other)`: `other` converted into this quantity's unit, added to its amount. */
  function Add(q: Unit, other: Unit): (r: Result<Unit>)
    ensures r.Ok? <==> Has(other.table, other.unit, q.unit)
    ensures r.Err? ==> Get(other, q.unit) == Err(r.error)
    ensures r.Ok? ==> r.value.unit == q.unit && r.value.table == q.table
    ensures r.Ok? ==> To(other, q.unit).Ok? && r.value.amount == q.amount + To(other, q.unit).value.amount
  {
    match Get(other, q.unit)
    case Ok(x) => Ok(WithAmount(q, q.amount + x))
    case Err(e) => Err(e)
  }

  /** `eq(other)`: this quantity converted into `other`'s unit equals `other`'s amount.
      A missing factor compares unequal; an unknown own unit throws. */
  function Eq(q: Unit, other: Unit): (r: Result<bool>)
    ensures r.Err? <==> !IsValid(q)
    ensures r.Err? ==> r.error == UnknownUnit
    ensures r.Ok? ==> (r.value <==> To(q, other.unit).Ok? && To(q, other.unit).value.amount == other.amount)
  {
    match Get(q, other.unit)
    case Ok(x) => Ok(x == other.amount)
    case Err(UnknownUnit) => Err(UnknownUnit)
    case Err(_) => Ok(false)
  }

  /** `gt(other)`: this quantity converted into `other`'s unit exceeds `other`'s amount.
      A missing factor compares false; an unknown own unit throws. */
  function Gt(q: Unit, other: Unit): (r: Result<bool>)
    ensures r.Err? <==> !IsValid(q)
    ensures r.Err? ==> r.error == UnknownUnit
    ensures r.Ok? ==> (r.value <==> To(q, other.unit).Ok? && To(q, other.unit).value.amount > other.amount)
  {
    match Get(q, other.unit)
    case Ok(x) => Ok(x > other.amount)
    case Err(UnknownUnit) => Err(UnknownUnit)
    case Err(_) => Ok(false)
  }

  /** The size of `q` in the common base unit of the scale `w`. */
  ghost function Magnitude(q: Unit, w: map<string, real>): (r: real)
    requires q.unit in w
  {
    q.amount * w[q.unit]
  }

  /** Converting keeps the quantity's size: the new amount times the new unit's scale is
      the old amount times the old unit's scale. */
  lemma ToPreservesMagnitude(q: Unit, toUnit: string, w: map<string, real>)
    requires Consistent(q.table, w) && Has(q.table, q.unit, toUnit)
    ensures To(q, toUnit).Ok? && q.unit in w && toUnit in w
    ensures Magnitude(To(q, toUnit).value, w) == Magnitude(q, w)
  {
    var f := q.table[q.unit][toUnit];
    assert EdgeAgrees(w, q.unit, toUnit, f);
    calc {
      Magnitude(To(q, toUnit).value, w);
      q.amount * f * w[toUnit];
      q.amount * (f * w[toUnit]);
      q.amount * w[q.unit];
    }
  }

  /** Converting a quantity into its own unit gives it back unchanged. */
  lemma ToSelf(q: Unit, w: map<string, real>)
    requires Consistent(q.table, w) && Has(q.table, q.unit, q.unit)
    ensures To(q, q.unit).Ok? && To(q, q.unit).value == q
  {
    ConsistentIdentity(q.table, w, q.unit);
  }

  /** Converting there and back gives the original quantity. */
  lemma ToRoundTrip(q: Unit, toUnit: string, w: map<string, real>)
    requires Consistent(q.table, w) && Has(q.table, q.unit, toUnit) && Has(q.table, toUnit, q.unit)
    ensures To(q, toUnit).Ok? && To(To(q, toUnit).value, q.unit).Ok?
    ensures To(To(q, toUnit).value, q.unit).value == q
  {
    var f, g := q.table[q.unit][toUnit], q.table[toUnit][q.unit];
    ConsistentInverse(q.table, w, q.unit, toUnit);
    assert f * g == 1.0;
    assert q.amount * f * g == q.amount * (f * g) == q.amount;
  }

  /** Converting in two steps is converting in one. */
  lemma ToCompose(q: Unit, via: string, toUnit: string, w: map<string, real>)
    requires Consistent(q.table, w)
    requires Has(q.table, q.unit, via) && Has(q.table, via, toUnit) && Has(q.table, q.unit, toUnit)
    ensures To(q, via).Ok? && To(To(q, via).value, toUnit).Ok? && To(q, toUnit).Ok?
    ensures To(To(q, via).value, toUnit).value == To(q, toUnit).value
  {
    var f, g := q.table[q.unit][via], q.table[via][toUnit];
    ConsistentTransitive(q.table, w, q.unit, via, toUnit);
    assert q.amount * f * g == q.amount * (f * g) == q.amount * q.table[q.unit][toUnit];
  }

  lemma NegateInvolutive(q: Unit)
    ensures Negate(Negate(q)) == q
  {
  }

  /** Dividing fails exactly on a zero divisor, and undoes a multiplication by the same number. */
  lemma DivUndoesMul(q: Unit, k: real)
    ensures Div(q, k).Err? <==> k == 0.0
    ensures k != 0.0 ==> Div(Mul(q, k), k).Ok? && Div(Mul(q, k), k).value == q
  {
    if k != 0.0 {
      assert q.amount * k / k == q.amount * (k / k) == q.amount;
    }
  }

  /** `add` succeeds exactly when `other` converts into this unit, and the sum is expressed in
      this unit, in this table, with the sizes of both operands added. */
  lemma AddMagnitude(q: Unit, other: Unit, w: map<string, real>)
    requires Consistent(other.table, w) && q.unit in w
    ensures Add(q, other).Ok? <==> Has(other.table, other.unit, q.unit)
    ensures Add(q, other).Ok? ==>
      && Add(q, other).value.unit == q.unit
      && Add(q, other).value.table == q.table
      && other.unit in w
      && Magnitude(Add(q, other).value, w) == Magnitude(q, w) + Magnitude(other, w)
  {
    if Has(other.table, other.unit, q.unit) {
      var f := other.table[other.unit][q.unit];
      assert EdgeAgrees(w, other.unit, q.unit, f);
      calc {
        Magnitude(Add(q, other).value, w);
        (q.amount + other.amount * f) * w[q.unit];
        q.amount * w[q.unit] + other.amount * (f * w[q.unit]);
        Magnitude(q, w) + Magnitude(other, w);
      }
    }
  }

  /** `a.add(b)` and `b.add(a)` are the same quantity expressed in different units. */
  lemma AddCommutesUpToUnit(a: Unit, b: Unit, w: map<string, real>)
    requires a.table == b.table && Consistent(a.table, w)
    requires Has(a.table, a.unit, b.unit) && Has(a.table, b.unit, a.unit)
    ensures Add(a, b).Ok? && Add(b, a).Ok?
    ensures To(Add(a, b).value, b.unit).Ok?
    ensures To(Add(a, b).value, b.unit).value == Add(b, a).value
  {
    var f, g := a.table[a.unit][b.unit], a.table[b.unit][a.unit];
    ConsistentInverse(a.table, w, a.unit, b.unit);
    assert f * g == 1.0;
    calc {
      (a.amount + b.amount * g) * f;
      a.amount * f + b.amount * (f * g);
      a.amount * f + b.amount * 1.0;
      b.amount + a.amount * f;
    }
  }

  /** `eq` holds exactly when both quantities have the same size. */
  lemma EqIffSameMagnitude(q: Unit, other: Unit, w: map<string, real>)
    requires Consistent(q.table, w) && Has(q.table, q.unit, other.unit)
    ensures q.unit in w && other.unit in w
    ensures Eq(q, other).Ok? && (Eq(q, other).value <==> Magnitude(q, w) == Magnitude(other, w))
  {
    var f := q.table[q.unit][other.unit];
    assert EdgeAgrees(w, q.unit, other.unit, f);
    assert q.amount * f * w[other.unit] == Magnitude(q, w);
    if q.amount * f != other.amount {
      assert (q.amount * f - other.amount) * w[other.unit] != 0.0;
    }
  }

  /** `eq` is symmetric over a shared consistent table. */
  lemma EqSymmetric(a: Unit, b: Unit, w: map<string, real>)
    requires a.table == b.table && Consistent(a.table, w)
    requires Has(a.table, a.unit, b.unit) && Has(a.table, b.unit, a.unit)
    ensures Eq(a, b) == Eq(b, a)
  {
    EqIffSameMagnitude(a, b, w);
    EqIffSameMagnitude(b, a, w);
  }

  /** `gt` holds exactly when this quantity is the larger one, measured in a scale where
      `other`'s unit is positive. */
  lemma GtIffLarger(q: Unit, other: Unit, w: map<string, real>)
    requires Consistent(q.table, w) && Has(q.table, q.unit, other.unit)
    requires other.unit in w && w[other.unit] > 0.0
    ensures q.unit in w
    ensures Gt(q, other).Ok? && (Gt(q, other).value <==> Magnitude(q, w) > Magnitude(other, w))
  {
    var f := q.table[q.unit][other.unit];
    assert EdgeAgrees(w, q.unit, other.unit, f);
    assert q.amount * f * w[other.unit] == Magnitude(q, w);
    assert (q.amount * f - other.amount) * w[other.unit] == Magnitude(q, w) - Magnitude(other, w);
  }

  /** Comparisons with a unit that has no factor from this one are false rather than errors;
      only an unknown own unit is an error. */
  lemma ComparisonsWithoutPath(q: Unit, other: Unit)
    requires !Has(q.table, q.unit, other.unit)
    ensures IsValid(q) ==> Eq(q, other) == Ok(false) && Gt(q, other) == Ok(false)
    ensures !IsValid(q) ==> Eq(q, other) == Err(UnknownUnit) && Gt(q, other) == Err(UnknownUnit)
  {
  }

  /** Units that a labelling of the table keeps in different groups have no factor between
      them: the lookup fails, and reports a missing path when the own unit is known. */
  lemma SeparatedGroupsDoNotConvert(q: Unit, toUnit: string, L: map<string, int>)
    requires Separated(q.table, L) && q.unit in L && toUnit in L && L[q.unit] != L[toUnit]
    ensures Get(q, toUnit).Err? && To(q, toUnit).Err?
    ensures IsValid(q) ==> Get(q, toUnit).error == NoConversionPath
  {
  }
}

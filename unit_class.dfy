/** `makeUnitClass(unitTable, defaultUnit)`: a family of quantities bound to one table and
    one default unit, with `zero()` and `identity()` in the default unit. */
module UnitClasses {
  import opened Matrices
  import opened Units
  import opened UnitTables

  datatype Option<T> = None | Some(value: T)

  datatype UnitClass = UnitClass(table: Matrix, defaultUnit: string)

  function MakeUnitClass(t: UnitTable, defaultUnit: string): (c: UnitClass)
    reads t
    ensures c.table == t.matrix && c.defaultUnit == defaultUnit
  {
    UnitClass(t.matrix, defaultUnit)
  }

  /** The constructor: a missing unit falls back to the default unit. */
  function New(c: UnitClass, amount: real, unit: Option<string>): (q: Unit)
    ensures q.table == c.table && q.amount == amount
    ensures q.unit == (if unit.Some? then unit.value else c.defaultUnit)
  {
    Unit(amount, if unit.None? then c.defaultUnit else unit.value, c.table)
  }

  /** `zero()`: no size at all, in the default unit. */
  function Zero(c: UnitClass): (q: Unit)
    ensures q.unit == c.defaultUnit && q.table == c.table
    ensures forall w | c.defaultUnit in w :: Magnitude(q, w) == 0.0
  {
    New(c, 0.0, Some(c.defaultUnit))
  }

  /** `identity()`: one default unit. */
  function Identity(c: UnitClass): (q: Unit)
    ensures q.unit == c.defaultUnit && q.table == c.table
    ensures forall w | c.defaultUnit in w :: Magnitude(q, w) == w[c.defaultUnit]
  {
    New(c, 1.0, Some(c.defaultUnit))
  }

  /** Leaving the unit out is the same as giving the default unit. */
  lemma NewInFamily(c: UnitClass, amount: real)
    ensures New(c, amount, None) == New(c, amount, Some(c.defaultUnit))
  {
  }

  /** Adding `zero()` to a quantity that converts from the default unit changes nothing. */
  lemma AddZeroRight(c: UnitClass, q: Unit)
    requires Has(c.table, c.defaultUnit, q.unit)
    ensures Add(q, Zero(c)).Ok? && Add(q, Zero(c)).value == q
  {
  }

  /** `zero().add(q)` is `q` expressed in the default unit. */
  lemma AddToZero(c: UnitClass, q: Unit)
    requires q.table == c.table && Has(c.table, q.unit, c.defaultUnit)
    ensures Add(Zero(c), q).Ok? && To(q, c.defaultUnit).Ok?
    ensures Add(Zero(c), q).value == To(q, c.defaultUnit).value
  {
  }

  /** `identity()` scaled by `k` is `k` of the default unit. */
  lemma IdentityScales(c: UnitClass, k: real)
    ensures Mul(Identity(c), k) == New(c, k, None)
  {
  }
}

# Units and conversion tables

A Dafny model of `lib/unit.js`. The file defines two things.

- **`UnitTable`** takes a few declared conversions ("1 foot = 0.3048 meter") and builds
  `matrix`, a map from unit name to a map from unit name to factor. The build derives every
  other factor it can reach, plus the reverse factors and the identities.
- **`Unit`** is an immutable quantity. It holds an amount, a unit name and the table that
  gives the name its meaning. Conversion, addition, comparison and scaling each return a new
  quantity.

`makeUnitClass` adds a small factory on top: a family of quantities bound to one table and
one default unit, with `zero()` and `identity()`.

Files:

- `matrices.dfy` (module `Matrices`): the matrix value and the predicates used to state what
  the build guarantees:
  - `Extends`: entries are only ever added. This holds for the model's `Set`; the source's
    own order can re-set an entry (see "Left out").
  - `Symmetric`, `ReflexiveRows`: every pair has its reverse; every unit has its identity.
  - `Consistent(m, w)`: every factor agrees with a scale `w`. `w[x]` is the size of one `x`
    in a common base unit.
  - `Separated(m, L)`: no factor crosses two groups of a labelling `L`.
  - `Missing`: the set of pairs not recorded yet. It is the termination measure.
  - `Log`, `LogSound`: a ghost history of the build. For each recorded pair it keeps the
    row its source unit had just before. It is the proof that the finished table is
    `Transitive`.
- `unit_table.dfy` (module `UnitTables`): the `UnitTable` class. Its constructor runs `Init`,
  and `Init` runs the recursive `Set` once per declaration. It also holds `SetAsWritten`,
  the source's own ordering of `set` (see Findings).
- `units.dfy` (module `Units`): the `Unit` datatype, its operations, and lemmas that tie each
  operation to the physical size it denotes.
- `unit_class.dfy` (module `UnitClasses`): `makeUnitClass`, `zero` and `identity`.

How the model treats numbers and edge cases:

- Factors and amounts are exact `real`s. "The declarations do not contradict each other" is
  stated as: some scale `w` agrees with every declaration (`Agrees`). Under that premise the
  built table is `Consistent`, so identities are 1, reverse factors are reciprocal, and
  factors compose.
- A declaration that maps a unit to itself with a factor other than 1 has no agreeing scale.
- In the source, a lookup whose own unit has no row throws. That is `Err(UnknownUnit)`.
- When the row exists but lacks the target unit, the source computes `amount * undefined`,
  which is NaN:
  - `get`, `to` and `add` report this as `Err(NoConversionPath)`.
  - `eq` and `gt` return `false`, as a NaN comparison does.
- `eq` and `gt` convert this quantity into `other`'s unit and compare the result with
  `other`'s amount (`lib/unit.js:89`, `lib/unit.js:94`).

## Model

| member | source | states |
|---|---|---|
| `UnitTables.UnitTable.Set` | lib/unit.js:14-30 | `set(a, b, f)`. It returns early, leaving the whole matrix unchanged, when `b` is already in `a`'s row. Otherwise it records `b` in `a`'s row with factor `f`, and on return `b`'s row holds every target that `a`'s row held before the call. It also records the reverse pair and both identities. Every identity it newly records has factor 1, except the pair itself when `a == b`, which has factor `f`. It never removes or changes an entry. It keeps every agreeing scale consistent and keeps every separating labelling separated. It terminates: the set of missing pairs over the declared units shrinks before each recursive call. It keeps the ghost log sound, and extends it without changing earlier entries. |
| `UnitTables.UnitTable.Init` | lib/unit.js:32-38 | Records the declarations in order. Afterwards the matrix's keys are exactly the declared units. Each declaration and its reverse are recorded. The table is symmetric and transitive, and every unit has its identity. Unless a declaration maps a unit to itself with a factor other than 1, every identity factor is exactly 1, whether or not the declarations agree with each other. Any two units joined by a chain of declarations, read in either direction, have a factor between them. Every scale that agrees with the declarations agrees with the table. No factor joins units that some labelling of the declarations keeps apart. |
| `UnitTables.UnitTable.constructor` | lib/unit.js:7-11 | Stores the declarations and builds the table through `Init`, with the same guarantees. |
| `UnitTables.UnitTable.SetAsWritten` | lib/unit.js:14-30 | `set` in the source's order: it carries factors over before recording the pair, and `depth` bounds the call stack. It only adds rows and keeps factors nonzero. When two complete groups are joined, it runs out of stack at every depth and leaves the matrix unchanged. |
| `UnitTables.SplitStuck` | lib/unit.js:15-21 | When two complete groups are joined, `a` is known and the pair is missing. Every factor `a` would carry over leads to another pair across the groups. |
| `UnitTables.TwoGroupsShape` | lib/unit.js:14-30 | A table over `a`, `b`, `c`, `d` with identities, `a -> c` and `b -> d` both ways, and no factor between the groups `{a, c}` and `{b, d}` consists of exactly those two complete groups. |
| `UnitTables.TwoGroupsAreSplit` | lib/unit.js:7-38 | The table built from the declarations `a -> c` (2) and `b -> d` (3) consists of the two complete groups `{a, c}` and `{b, d}`. A third declaration `c -> b` crosses them. |
| `UnitTables.ThirdDeclarationStalls` | lib/unit.js:14-30 | On that table, `set("c", "b", 2.5)` in the source's order does not finish at any stack depth. |
| `UnitTables.UnitTable.Value` | lib/unit.js:41-43 | `value(amount, unit)` builds an unvalidated quantity over this table. It is valid exactly when the unit has a row. |
| `UnitTables.ValidIffDeclared` | lib/unit.js:70-73 | On a constructed table, `valid()` holds exactly when the unit was declared. |
| `Matrices.LogRecordFacts` | lib/unit.js:22-24 | Logging a newly recorded pair with its source unit's previous row keeps the log sound. The new pair's call counts as running. |
| `Matrices.RowsAgree` | lib/unit.js:19-29 | Suppose the log is sound, no call is running and the table is symmetric. Then `x -> y` and `x -> z` imply `y -> z`. Whichever pair was recorded first lies in the other's snapshot, and the later call copied it over. |
| `Matrices.FinishedLogIsTransitive` | lib/unit.js:14-38 | When no call of `set` is running and the table is symmetric, the table is transitive. |
| `UnitTables.LinkedRecorded` | lib/unit.js:32-38 | A transitive table that records every declaration both ways has a factor between the two ends of every chain of declarations. |
| `UnitTables.YardInMeters` | lib/unit.js:7-38 | From "1 foot = 0.3048 meter" and "1 yard = 3 foot", `value(1, "yard").to("meter")` is 0.9144 meter. |
| `Matrices.Record` | lib/unit.js:22-24 | Records "1 a = f b" and creates `a`'s row when it is missing. The keys gain exactly `a`. Every other row is kept unchanged. `a`'s row gains exactly `b` and keeps its other factors. |
| `Matrices.MissingShrinks` | lib/unit.js:15-22 | Recording a missing pair, while losing none, makes the set of missing pairs strictly smaller. |
| `Matrices.RecordFacts` | lib/unit.js:22-24 | Recording a missing pair keeps the table well formed. It changes no existing factor and adds no pair other than (a, b). A factor that agrees with a scale keeps the table consistent with it. |
| `Matrices.DerivedEdgeAgrees` | lib/unit.js:19-21 | Suppose "1 a = f b" and "1 a = g o" agree with a scale. Then the carried-over factor "1 b = (g / f) o" agrees with it too. |
| `Matrices.ReverseEdgeAgrees` | lib/unit.js:27 | The reverse factor `1 / f` agrees with any scale that "1 a = f b" agrees with. |
| `Matrices.ConsistentIdentity` | lib/unit.js:28-29 | In a consistent table every identity factor is 1. |
| `Matrices.ConsistentInverse` | lib/unit.js:27 | In a consistent table `m[x][y] * m[y][x] == 1` for every pair recorded both ways. |
| `Matrices.ConsistentTransitive` | lib/unit.js:19-20 | In a consistent table `m[x][y] * m[y][z] == m[x][z]` whenever all three are recorded. |
| `Matrices.ClosedGrowthKeepsShape` | lib/unit.js:27-29 | A symmetric table with identities stays symmetric with identities when each new pair comes with its reverse and identities. |
| `Units.Get` | lib/unit.js:79-81 | `get` succeeds exactly when both keys are present. It throws (`UnknownUnit`) exactly when the quantity's own unit has no row. |
| `Units.To` | lib/unit.js:75-77 | `to(u)` gives a quantity whose unit is `u`, whose table is the same, and whose amount is `get(u)`. It fails as `get` fails. |
| `Units.WithAmount` | lib/unit.js:83-85 | A new quantity with the same unit and table and the given amount. |
| `Units.ToPreservesMagnitude` | lib/unit.js:75-81 | Over a consistent table, conversion keeps the quantity's size in the base unit. |
| `Units.ToSelf` | lib/unit.js:75-81 | Over a consistent table, converting into the own unit gives the quantity back exactly. |
| `Units.ToRoundTrip` | lib/unit.js:75-81 | Over a consistent table, `q.to(u).to(q.unit)` is `q`. |
| `Units.ToCompose` | lib/unit.js:75-81 | Over a consistent table, converting through `v` and then into `u` equals converting into `u` directly. |
| `Units.NegateInvolutive` | lib/unit.js:97-99 | `negate` keeps unit and table, and negating twice gives the quantity back. |
| `Units.Negate` | lib/unit.js:97-99 | `negate()` keeps unit and table and flips the sign of the quantity's size in every scale. |
| `Units.Mul` | lib/unit.js:106-109 | `mul(k)` keeps unit and table and multiplies the size by `k` in every scale. |
| `Units.Div` | lib/unit.js:111-114 | `div(k)` fails with `InvalidAmount` exactly when `k == 0`. Otherwise it keeps unit and table, and multiplying the result by `k` gives the quantity back. |
| `Units.Add` | lib/unit.js:101-104 | `add(other)` succeeds exactly when `other` has a factor into this unit, and otherwise fails as `other.get(this.unit)` fails. The result keeps this unit and table, and its amount is this amount plus `other` converted into this unit. |
| `Units.Eq` | lib/unit.js:87-90 | `eq(other)` throws (`UnknownUnit`) exactly when this quantity is not valid. Otherwise it holds exactly when this quantity converts into `other`'s unit with `other`'s amount. |
| `Units.Gt` | lib/unit.js:92-95 | `gt(other)` throws (`UnknownUnit`) exactly when this quantity is not valid. Otherwise it holds exactly when this quantity converts into `other`'s unit with an amount above `other`'s. |
| `Units.IsValid` | lib/unit.js:70-73 | `valid()` holds exactly when no lookup from this quantity throws. |
| `Units.DivUndoesMul` | lib/unit.js:111-114 | `div(k)` fails exactly for `k == 0`. Otherwise it undoes `mul(k)`. |
| `Units.AddMagnitude` | lib/unit.js:101-104 | `add(other)` succeeds exactly when `other` has a factor into this unit. The result is in this unit and this table, and its size is the sum of both sizes. |
| `Units.AddCommutesUpToUnit` | lib/unit.js:101-104 | Over a shared consistent table, `a.add(b)` converted into `b`'s unit is `b.add(a)`. |
| `Units.EqIffSameMagnitude` | lib/unit.js:87-90 | Over a consistent table with a factor between the units, `eq` holds exactly when both sizes are equal. |
| `Units.EqSymmetric` | lib/unit.js:87-90 | Over a shared consistent table, `a.eq(b) == b.eq(a)`. |
| `Units.GtIffLarger` | lib/unit.js:92-95 | Over a consistent table, measured in a scale where `other`'s unit is positive, `gt` holds exactly when this quantity is larger. |
| `Units.ComparisonsWithoutPath` | lib/unit.js:87-95 | Without a factor, `eq` and `gt` are `false` when the own unit is known, and throw otherwise. |
| `Units.SeparatedGroupsDoNotConvert` | lib/unit.js:79-81 | Units that some labelling of the table keeps in different groups have no factor between them. `get` and `to` fail, with `NoConversionPath` when the own unit is known. |
| `UnitClasses.MakeUnitClass` | lib/unit.js:46-47 | The family is bound to the table's matrix and to the default unit. |
| `UnitClasses.New` | lib/unit.js:48-50 | The family's constructor uses its table and the given amount. It takes the given unit, or the default unit when none is given. |
| `UnitClasses.NewInFamily` | lib/unit.js:48-50 | Leaving the unit out is the same as giving the default unit. |
| `UnitClasses.Zero` | lib/unit.js:52-54 | `zero()` is in the default unit and the family's table, and its size is 0 in every scale. |
| `UnitClasses.Identity` | lib/unit.js:56-58 | `identity()` is in the default unit and the family's table, and its size is one default unit in every scale. |
| `UnitClasses.AddZeroRight` | lib/unit.js:52-54 | Adding `zero()` to a quantity changes nothing, provided the default unit converts into the quantity's unit. |
| `UnitClasses.AddToZero` | lib/unit.js:52-54 | `zero().add(q)` is `q` converted into the default unit. |
| `UnitClasses.IdentityScales` | lib/unit.js:56-58 | `identity().mul(k)` is `k` of the default unit. |

## Findings

| source | as written | input that shows it | evidently intended | confidence | as-written member | corrected member |
|---|---|---|---|---|---|---|
| lib/unit.js:19-22 | `set(a, b, f)` carries `a`'s factors over to `b` before it records `a -> b`. When `a` and `b` are both already known in different groups, each nested call is again a known unit paired with a missing unit from the other group, and it recurses before recording anything. The recursion never ends, and the call stack overflows. | Declarations `{a: [2, "c"], b: [3, "d"], c: [2.5, "b"]}`. The first two build the groups `{a, c}` and `{b, d}`; the source's order and the corrected order both produce exactly this shape from them, and the stall depends only on that shape. The third calls `set("c","b",2.5)`, which calls `set("b","a",0.2)`, then `set("a","d",15)`, then `set("d","c",2/15)`, then `set("c","b",2.5)` again on an unchanged table. | Joining two known groups terminates with a table that has all pairs. The fix records the pair before carrying factors over, so each recursive call starts with one pair fewer missing. | not executed; high (the cycle follows from the code alone) | `UnitTables.UnitTable.SetAsWritten` | `UnitTables.UnitTable.Set` |

## Left out

- `pow` (`lib/unit.js:116-119`). It calls the floating-point `Math.pow`, which has no exact counterpart over reals.
- `approxEquals` (`lib/unit.js:4`). It is an epsilon comparison from `math.js`, and `math.js` is not part of this model. `Units.Eq` uses exact equality instead.
- `ensureSignature`, `FLOAT_OR_INT` and `Numeric` come from `signature.js` and `quantitative.js`, which are not part of this model. Dafny's types replace the runtime operand checks: `add`, `eq` and `gt` take a `Unit`; `mul` and `div` take a `real`.
- The `typeof amount == 'number'` half of `valid()`. A `real` is always a number, and there is no NaN or Infinity.
- Floating-point rounding. Every factor and amount is exact.
- NaN results:
  - `Units.Get`, `Units.To`, `Units.Add`: the source returns NaN (or a quantity with a NaN amount) when a factor is missing. The model returns `Err(NoConversionPath)`.
  - `Units.Div`: dividing by zero gives Infinity or NaN in the source. The model returns `Err(InvalidAmount)`.
- `UnitTables.UnitTable.constructor`: requires every declared factor to be nonzero. A zero factor makes the source compute `1 / 0`, which has no real value.
- Live iteration: the source iterates `a`'s row as a live `Map`, so it also visits entries added during the recursion. The model iterates a snapshot of the row taken before the loop, and takes its targets in no particular order where the source follows the `Map`'s insertion order. When the declarations disagree with each other, that order decides which factor is recorded for a derived pair, so the model does not pin down those factors (it does when some scale agrees with every declaration).
- Re-set entries: in the source's order, a pair can be recorded by a nested call and then set again at `lib/unit.js:22` by the call that carried it over. So the source's table only ever adds keys, and it keeps its factors unchanged only when the declarations agree with a scale. The model's `Set` records the pair first, so it never re-sets one, and `Extends` describes the model alone.
- Declaration order and keys: the source's declarations are an object iterated with `for...in`, so keys are distinct and listed in property order. The model takes any sequence of declarations.
- Table identity: a `Unit` holds the table's matrix value, not a reference to the table object. The matrix does not change after construction, so every lookup sees the same entries.
- `UnitTables.UnitTable.SetAsWritten`: `depth` stands in for the call stack; the source has no depth limit and fails with a stack overflow instead.

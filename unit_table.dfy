/** `UnitTable`: builds the full pairwise conversion matrix from a list of declared
    conversions, deriving every factor reachable from them, their reverses and identities. */
module UnitTables {
  import opened Matrices
  import opened Units

  /** One declaration: "1 key = amount toUnit". */
  datatype Conversion = Conversion(key: string, amount: real, toUnit: string)

  /** Every unit name that a declaration mentions. */
  ghost function DeclaredUnits(cs: seq<Conversion>): (r: set<string>)
  {
    (set c | c in cs :: c.key) + (set c | c in cs :: c.toUnit)
  }

  /** Every declaration agrees with the scale `w`: the declarations do not contradict each other. */
  ghost predicate Agrees(cs: seq<Conversion>, w: map<string, real>)
  {
    forall i | 0 <= i < |cs| :: EdgeAgrees(w, cs[i].key, cs[i].toUnit, cs[i].amount)
  }

  /** Two complete, disjoint groups of units: each unit of `A` has exactly the units of `A` in
      its row, and likewise for `B`. This is the table's shape after two unrelated groups of
      declarations. */
  ghost predicate Split(m: Matrix, A: set<string>, B: set<string>)
  {
    && A !! B && A != {} && B != {}
    && (forall x | x in A :: x in m && m[x].Keys == A)
    && (forall x | x in B :: x in m && m[x].Keys == B)
  }

  /** `a` and `b` lie in different groups. */
  ghost predicate Across(A: set<string>, B: set<string>, a: string, b: string)
  {
    (a in A && b in B) || (a in B && b in A)
  }

  /** From a split table, `set` on a pair across the groups finds `a` known, the pair missing,
      and only pairs across the groups to carry over. */
  lemma SplitStuck(m: Matrix, A: set<string>, B: set<string>, a: string, b: string)
    requires Split(m, A, B) && Across(A, B, a, b)
    ensures a in m && b !in m[a] && m[a].Keys != {}
    ensures forall o | o in m[a] :: Across(A, B, b, o)
  {
  }

  /** Every declaration that maps a unit to itself does so with factor 1. */
  ghost predicate SelfLoopsOne(cs: seq<Conversion>)
  {
    forall i | 0 <= i < |cs| :: cs[i].key == cs[i].toUnit ==> cs[i].amount == 1.0
  }

  /** The labelling `L` puts both units of every declaration in one group. */
  ghost predicate Respects(cs: seq<Conversion>, L: map<string, int>)
  {
    forall i | 0 <= i < |cs| :: SameGroup(L, cs[i].key, cs[i].toUnit)
  }

  /** Declaration `i` relates `x` and `y`, read in either direction. */
  ghost predicate Declares(cs: seq<Conversion>, i: int, x: string, y: string)
  {
    0 <= i < |cs| && ((cs[i].key == x && cs[i].toUnit == y) || (cs[i].key == y && cs[i].toUnit == x))
  }

  /** Some declaration relates `x` and `y`. */
  ghost predicate Related(cs: seq<Conversion>, x: string, y: string)
  {
    exists i :: Declares(cs, i, x, y)
  }

  /** Consecutive units of `path` are related by some declaration. */
  ghost predicate Linked(cs: seq<Conversion>, path: seq<string>)
  {
    |path| >= 2 && forall k | 0 <= k < |path| - 1 :: Related(cs, path[k], path[k + 1])
  }

  /** A transitive matrix that records every declaration both ways records a pair between the
      ends of every chain of declarations: the table derives every conversion the declarations
      connect. */
  lemma {:induction false} LinkedRecorded(m: Matrix, cs: seq<Conversion>, path: seq<string>)
    requires Transitive(m)
    requires forall i | 0 <= i < |cs| :: Has(m, cs[i].key, cs[i].toUnit) && Has(m, cs[i].toUnit, cs[i].key)
    requires Linked(cs, path)
    ensures Has(m, path[0], path[|path| - 1])
    decreases |path|
  {
    var n := |path|;
    var i :| Declares(cs, i, path[n - 2], path[n - 1]);
    assert Has(m, path[n - 2], path[n - 1]);
    if n > 2 {
      var prefix := path[..n - 1];
      forall k | 0 <= k < |prefix| - 1 ensures Related(cs, prefix[k], prefix[k + 1]) {
        assert prefix[k] == path[k] && prefix[k + 1] == path[k + 1];
      }
      LinkedRecorded(m, cs, prefix);
      assert Has(m, path[0], path[n - 2]);
    }
  }

  class UnitTable {
    const conversions: seq<Conversion>
    /** The declared unit names: the finite world the construction ranges over. */
    ghost const units: set<string>
    var matrix: Matrix
    /** For every recorded pair, the row its source unit had just before. */
    ghost var log: Log

    /** Rows and entries mention declared units only; rows are never empty; factors are nonzero. */
    ghost predicate Valid()
      reads this
    {
      WellFormed(units, matrix)
    }

    /** Builds the table from the declarations, in order. */
    constructor (conversions: seq<Conversion>)
      requires forall i | 0 <= i < |conversions| :: conversions[i].amount != 0.0
      ensures this.conversions == conversions && units == DeclaredUnits(conversions)
      ensures Valid()
      ensures matrix.Keys == units
      ensures forall i | 0 <= i < |conversions| ::
        Has(matrix, conversions[i].key, conversions[i].toUnit) && Has(matrix, conversions[i].toUnit, conversions[i].key)
      ensures Symmetric(matrix) && ReflexiveRows(matrix) && Transitive(matrix)
      ensures forall path | Linked(conversions, path) :: Has(matrix, path[0], path[|path| - 1])
      ensures forall w | Agrees(conversions, w) :: Consistent(matrix, w)
      ensures forall L | Respects(conversions, L) :: Separated(matrix, L)
      ensures SelfLoopsOne(conversions) ==> forall u | u in matrix :: matrix[u][u] == 1.0
    {
      this.conversions := conversions;
      units := DeclaredUnits(conversions);
      matrix := map[];
      log := map[];
      new;
      Init();
    }

    /** `init`: records every declaration, in order, through `Set`. */
    method Init()
      requires Valid() && units == DeclaredUnits(conversions) && matrix == map[] && log == map[]
      requires forall i | 0 <= i < |conversions| :: conversions[i].amount != 0.0
      modifies this
      ensures Valid()
      ensures matrix.Keys == units
      ensures forall i | 0 <= i < |conversions| ::
        Has(matrix, conversions[i].key, conversions[i].toUnit) && Has(matrix, conversions[i].toUnit, conversions[i].key)
      ensures Symmetric(matrix) && ReflexiveRows(matrix) && Transitive(matrix)
      ensures forall path | Linked(conversions, path) :: Has(matrix, path[0], path[|path| - 1])
      ensures forall w | Agrees(conversions, w) :: Consistent(matrix, w)
      ensures forall L | Respects(conversions, L) :: Separated(matrix, L)
      ensures SelfLoopsOne(conversions) ==> forall u | u in matrix :: matrix[u][u] == 1.0
    {
      var i := 0;
      while i < |conversions|
        invariant 0 <= i <= |conversions|
        invariant Valid()
        invariant forall j | 0 <= j < i ::
          Has(matrix, conversions[j].key, conversions[j].toUnit) && Has(matrix, conversions[j].toUnit, conversions[j].key)
        invariant Symmetric(matrix) && ReflexiveRows(matrix)
        invariant forall w | Agrees(conversions, w) :: Consistent(matrix, w)
        invariant forall L | Respects(conversions, L) :: Separated(matrix, L)
        invariant SelfLoopsOne(conversions) ==> IdOne(matrix)
        invariant LogSound(matrix, log, {})
      {
        var c := conversions[i];
        assert c in conversions;
        ghost var before := matrix;
        Set(c.key, c.toUnit, c.amount, {});
        if SelfLoopsOne(conversions) {
          assert c.key == c.toUnit ==> c.amount == 1.0;
          IdOneGrows(before, matrix, c.key, c.toUnit, c.amount);
        }
        ClosedGrowthKeepsShape(before, matrix);
        forall w | Agrees(conversions, w) ensures Consistent(matrix, w) {
          assert EdgeAgrees(w, conversions[i].key, conversions[i].toUnit, conversions[i].amount);
        }
        forall L | Respects(conversions, L) ensures Separated(matrix, L) {
          assert SameGroup(L, conversions[i].key, conversions[i].toUnit);
        }
        i := i + 1;
      }
      forall u | u in units ensures u in matrix {
        var c :| c in conversions && (c.key == u || c.toUnit == u);
        var j :| 0 <= j < |conversions| && conversions[j] == c;
        assert Has(matrix, c.key, c.toUnit);
      }
      FinishedLogIsTransitive(matrix, log);
      if SelfLoopsOne(conversions) {
        forall u | u in matrix ensures matrix[u][u] == 1.0 {
          assert Has(matrix, u, u) && IdentityOne(matrix, u);
        }
      }
      forall path | Linked(conversions, path) ensures Has(matrix, path[0], path[|path| - 1]) {
        LinkedRecorded(matrix, conversions, path);
      }
    }

    /** `set(a, b, f)`: records "1 a = f b" and everything it implies. A pair already recorded
        is left alone; otherwise the pair is recorded, each factor "1 a = g o" that `a` already
        had is carried over to `b` as "1 b = (g / f) o", and the reverse and both identities
        are recorded the same way. Every recursive call starts after one more pair has been
        recorded, so the set of pairs still missing shrinks. `running` holds the pairs whose
        calls are still in progress further up the stack; every other logged pair has finished. */
    method Set(a: string, b: string, f: real, ghost running: set<(string, string)>)
      requires Valid() && a in units && b in units && f != 0.0
      requires LogSound(matrix, log, running)
      modifies this
      decreases Missing(units, matrix)
      ensures Valid()
      ensures Extends(old(matrix), matrix)
      ensures Has(matrix, a, b)
      ensures old(Has(matrix, a, b)) ==> matrix == old(matrix)
      ensures !old(Has(matrix, a, b)) ==> matrix[a][b] == f
      ensures !old(Has(matrix, a, b)) ==> forall o | o in old(Row(matrix, a)) :: Has(matrix, b, o)
      ensures !old(Has(matrix, a, b)) ==> Has(matrix, b, a) && Has(matrix, a, a) && Has(matrix, b, b)
      ensures NewPairsClosed(old(matrix), matrix)
      ensures KeepsConsistent(old(matrix), matrix, a, b, f)
      ensures KeepsSeparated(old(matrix), matrix, a, b)
      ensures NewIdentitiesOne(old(matrix), matrix, a, b, f)
      ensures LogSound(matrix, log, running)
      ensures LogExtends(old(log), log)
    {
      if a in matrix && b in matrix[a] {
        return;
      }
      ghost var m0, log0 := matrix, log;
      RecordNewIdentities(m0, a, b, f);
      ghost var inner := running + {(a, b)};
      var row := Row(matrix, a);
      RecordFacts(units, m0, a, b, f);
      RecordSeparated(m0, a, b, f);
      LogRecordFacts(m0, log0, running, a, b, f);
      log := log[(a, b) := row.Keys];
      matrix := Record(matrix, a, b, f);
      assert LogSound(matrix, log, inner) && Carried(matrix, log0, log, a, b, row.Keys, row.Keys);

      var pending := row.Keys;
      while pending != {}
        invariant pending <= row.Keys
        invariant Valid()
        invariant Extends(m0, matrix) && Has(matrix, a, b) && matrix[a][b] == f
        invariant NewIdentitiesOne(m0, matrix, a, b, f)
        invariant ClosedExcept(m0, matrix, a, b)
        invariant KeepsConsistent(m0, matrix, a, b, f)
        invariant KeepsSeparated(m0, matrix, a, b)
        invariant LogSound(matrix, log, inner)
        invariant Carried(matrix, log0, log, a, b, row.Keys, pending)
        decreases pending
      {
        var o :| o in pending;
        assert Has(m0, a, o) && row[o] == m0[a][o] && row[o] != 0.0 && o != b;
        QuotientNonZero(row[o], f);
        ghost var before, logBefore := matrix, log;
        MissingShrinks(units, m0, matrix, a, b);
        Set(b, o, row[o] / f, inner);
        CarriedStep(before, matrix, log0, logBefore, log, a, b, row.Keys, pending, o);
        DerivedEntailed(m0, a, b, f, o);
        StepFacts(m0, before, matrix, a, b, f, b, o, row[o] / f);
        NewIdentitiesStep(m0, before, matrix, a, b, f, b, o, row[o] / f);
        StepSeparated(m0, before, matrix, a, b, b, o);
        pending := pending - {o};
      }

      ReverseEntailed(m0, a, b, f);
      QuotientNonZero(1.0, f);
      // The reverse.
      ghost var before, logBefore := matrix, log;
      MissingShrinks(units, m0, matrix, a, b);
      Set(b, a, 1.0 / f, inner);
      CarriedKeep(before, matrix, log0, logBefore, log, a, b, row.Keys);
      StepFacts(m0, before, matrix, a, b, f, b, a, 1.0 / f);
      NewIdentitiesStep(m0, before, matrix, a, b, f, b, a, 1.0 / f);
      StepSeparated(m0, before, matrix, a, b, b, a);
      // The identities.
      before, logBefore := matrix, log;
      MissingShrinks(units, m0, matrix, a, b);
      Set(b, b, 1.0, inner);
      CarriedKeep(before, matrix, log0, logBefore, log, a, b, row.Keys);
      StepFacts(m0, before, matrix, a, b, f, b, b, 1.0);
      NewIdentitiesStep(m0, before, matrix, a, b, f, b, b, 1.0);
      StepSeparated(m0, before, matrix, a, b, b, b);
      before, logBefore := matrix, log;
      MissingShrinks(units, m0, matrix, a, b);
      Set(a, a, 1.0, inner);
      CarriedKeep(before, matrix, log0, logBefore, log, a, b, row.Keys);
      StepFacts(m0, before, matrix, a, b, f, a, a, 1.0);
      NewIdentitiesStep(m0, before, matrix, a, b, f, a, a, 1.0);
      StepSeparated(m0, before, matrix, a, b, a, a);

      ClosedExceptDone(m0, matrix, a, b);
      CarriedDone(matrix, log0, log, running, a, b, row.Keys);
    }

    /** `set(a, b, f)` in the order the source performs it: carry the factors over first and
        record the pair afterwards. `depth` is the call-stack budget; `done` is false when the
        budget ran out. Joining two complete groups never gets anywhere: every call recurses
        into another pair across the groups before recording anything. */
    method SetAsWritten(a: string, b: string, f: real, depth: nat, ghost A: set<string>, ghost B: set<string>)
      returns (done: bool)
      requires f != 0.0 && NonZero(matrix)
      modifies this
      decreases depth
      ensures NonZero(matrix)
      ensures forall x | x in old(matrix) :: x in matrix
      ensures Split(old(matrix), A, B) && Across(A, B, a, b) ==> !done && matrix == old(matrix)
    {
      ghost var stuck := Split(matrix, A, B) && Across(A, B, a, b);
      if stuck {
        SplitStuck(matrix, A, B, a, b);
      }
      if depth == 0 {
        return false;
      }
      if a in matrix {
        var row := matrix[a];
        if b in row {
          return true;
        }
        ghost var m0 := matrix;
        var pending := row.Keys;
        while pending != {}
          invariant pending <= row.Keys
          invariant NonZero(matrix) && a in matrix
          invariant forall x | x in m0 :: x in matrix
          invariant stuck ==> matrix == m0 && pending == row.Keys
          decreases pending
        {
          var o :| o in pending;
          assert Has(m0, a, o) && row[o] != 0.0;
          QuotientNonZero(row[o], f);
          done := SetAsWritten(b, o, row[o] / f, depth - 1, A, B);
          if !done {
            return;
          }
          pending := pending - {o};
        }
      }
      RecordNonZero(matrix, a, b, f);
      matrix := Record(matrix, a, b, f);
      QuotientNonZero(1.0, f);
      done := SetAsWritten(b, a, 1.0 / f, depth - 1, A, B);
      if !done {
        return;
      }
      done := SetAsWritten(b, b, 1.0, depth - 1, A, B);
      if !done {
        return;
      }
      done := SetAsWritten(a, a, 1.0, depth - 1, A, B);
    }

    /** `value(amount, unit)`: a quantity over this table; nothing is validated. */
    function Value(amount: real, unit: string): (q: Unit)
      reads this
      ensures q.amount == amount && q.unit == unit && q.table == matrix
      ensures IsValid(q) <==> unit in matrix
    {
      Unit(amount, unit, matrix)
    }
  }

  /** On a constructed table, a quantity is valid exactly when its unit was declared. */
  lemma ValidIffDeclared(t: UnitTable, amount: real, unit: string)
    requires t.matrix.Keys == t.units
    ensures IsValid(t.Value(amount, unit)) <==> unit in t.units
  {
  }

  /** The scale that the foot/yard declarations agree with, meters as the base. */
  function Lengths(): (w: map<string, real>)
  {
    map["meter" := 1.0, "foot" := 0.3048, "yard" := 0.9144]
  }

  /** Any matrix consistent with `Lengths` that relates yards to meters has the factor 0.9144. */
  lemma YardFactor(m: Matrix)
    requires Has(m, "yard", "meter") && Consistent(m, Lengths())
    ensures m["yard"]["meter"] == 0.9144
  {
    assert EdgeAgrees(Lengths(), "yard", "meter", m["yard"]["meter"]);
  }

  /** Declaring "1 foot = 0.3048 meter" and "1 yard = 3 foot" makes one yard 0.9144 meter,
      although no declaration relates yards and meters directly. */
  method YardInMeters() returns (q: Result<Unit>)
    ensures q.Ok? && q.value.unit == "meter" && q.value.amount == 0.9144
  {
    var cs := [Conversion("foot", 0.3048, "meter"), Conversion("yard", 3.0, "foot")];
    assert Declares(cs, 1, "yard", "foot") && Declares(cs, 0, "foot", "meter");
    assert Linked(cs, ["yard", "foot", "meter"]);
    assert Agrees(cs, Lengths()) by {
      assert EdgeAgrees(Lengths(), cs[0].key, cs[0].toUnit, cs[0].amount);
      assert EdgeAgrees(Lengths(), cs[1].key, cs[1].toUnit, cs[1].amount);
    }
    var t := new UnitTable(cs);
    YardFactor(t.matrix);
    q := To(t.Value(1.0, "yard"), "meter");
  }

  /** The labelling that keeps {a, c} apart from {b, d}. */
  function TwoLabels(): (L: map<string, int>)
  {
    map["a" := 0, "c" := 0, "b" := 1, "d" := 1]
  }

  /** A table over a, b, c, d with identities, "a -> c" and "b -> d" both ways, and no factor
      across the labelling, consists of the two complete groups {a, c} and {b, d}. */
  lemma TwoGroupsShape(m: Matrix)
    requires m.Keys == {"a", "b", "c", "d"} && ReflexiveRows(m) && Separated(m, TwoLabels())
    requires Has(m, "a", "c") && Has(m, "c", "a") && Has(m, "b", "d") && Has(m, "d", "b")
    ensures Split(m, {"a", "c"}, {"b", "d"})
  {
    var L := TwoLabels();
    assert Has(m, "a", "a") && Has(m, "b", "b") && Has(m, "c", "c") && Has(m, "d", "d");
    forall x | x in m ensures m[x].Keys == (if L[x] == 0 then {"a", "c"} else {"b", "d"}) {
      forall y | y in m[x] ensures SameGroup(L, x, y) {
        assert Has(m, x, y);
      }
    }
  }

  /** Declaring "1 a = 2 c" and "1 b = 3 d" builds two complete groups, and a third
      declaration "1 c = 2.5 b" would join them. */
  method TwoGroupsAreSplit() returns (t: UnitTable)
    ensures fresh(t) && NonZero(t.matrix)
    ensures Split(t.matrix, {"a", "c"}, {"b", "d"}) && Across({"a", "c"}, {"b", "d"}, "c", "b")
  {
    var cs := [Conversion("a", 2.0, "c"), Conversion("b", 3.0, "d")];
    assert DeclaredUnits(cs) == {"a", "b", "c", "d"} by {
      assert (set c | c in cs :: c.key) == {"a", "b"};
      assert (set c | c in cs :: c.toUnit) == {"c", "d"};
    }
    assert Respects(cs, TwoLabels()) by {
      assert SameGroup(TwoLabels(), cs[0].key, cs[0].toUnit);
      assert SameGroup(TwoLabels(), cs[1].key, cs[1].toUnit);
    }
    t := new UnitTable(cs);
    assert Has(t.matrix, cs[0].key, cs[0].toUnit) && Has(t.matrix, cs[0].toUnit, cs[0].key);
    assert Has(t.matrix, cs[1].key, cs[1].toUnit) && Has(t.matrix, cs[1].toUnit, cs[1].key);
    TwoGroupsShape(t.matrix);
  }

  /** In the source's order, the third declaration "1 c = 2.5 b" never finishes, whatever
      stack depth is allowed. */
  method ThirdDeclarationStalls(depth: nat) returns (done: bool)
    ensures !done
  {
    var t := TwoGroupsAreSplit();
    done := t.SetAsWritten("c", "b", 2.5, depth, {"a", "c"}, {"b", "d"});
  }
}

/** Conversion matrices: the value held in `UnitTable.matrix`.
    `m[x][y] == f` records that one `x` equals `f` of `y`. */
module Matrices {

  type Matrix = map<string, map<string, real>>

  /** The factor from `x` to `y` is recorded. */
  predicate Has(m: Matrix, x: string, y: string)
  {
    x in m && y in m[x]
  }

  /** `m` keeps every row and every factor of `m0`: entries are only ever added. */
  ghost predicate Extends(m0: Matrix, m: Matrix)
  {
    && (forall x | x in m0 :: x in m)
    && (forall x, y {:trigger Has(m0, x, y)} :: Has(m0, x, y) ==> Has(m, x, y) && m[x][y] == m0[x][y])
  }

  /** Every recorded pair has its reverse recorded. */
  ghost predicate Symmetric(m: Matrix)
  {
    forall x, y {:trigger Has(m, x, y)} :: Has(m, x, y) ==> Has(m, y, x)
  }

  /** Every known unit has its identity entry. */
  ghost predicate ReflexiveRows(m: Matrix)
  {
    forall x | x in m :: Has(m, x, x)
  }

  /** Every pair recorded in `m` but not in `m0` has, in `m`, its reverse and both identities. */
  ghost predicate NewPairsClosed(m0: Matrix, m: Matrix)
  {
    forall x, y {:trigger Has(m, x, y)} ::
      Has(m, x, y) && !Has(m0, x, y) ==> Has(m, y, x) && Has(m, x, x) && Has(m, y, y)
  }

  /** A scale `w` gives the size of one of each unit in a common base unit. */
  ghost predicate Scaled(w: map<string, real>, x: string)
  {
    x in w && w[x] != 0.0
  }

  /** "1 x = f y" agrees with the scale `w`. */
  ghost predicate EdgeAgrees(w: map<string, real>, x: string, y: string, f: real)
  {
    Scaled(w, x) && Scaled(w, y) && f * w[y] == w[x]
  }

  /** Every recorded factor agrees with the scale `w`; such a matrix is free of contradictions. */
  ghost predicate Consistent(m: Matrix, w: map<string, real>)
  {
    forall x, y {:trigger Has(m, x, y)} :: Has(m, x, y) ==> EdgeAgrees(w, x, y, m[x][y])
  }

  /** The (from, to) pairs over `units` that `m` does not record yet. */
  ghost function Missing(units: set<string>, m: Matrix): (r: set<(string, string)>)
  {
    set x, y | x in units && y in units && !Has(m, x, y) :: (x, y)
  }

  lemma ExtendsTrans(m0: Matrix, m1: Matrix, m2: Matrix)
    requires Extends(m0, m1) && Extends(m1, m2)
    ensures Extends(m0, m2)
  {
  }

  /** Recording one missing pair, and losing none, strictly shrinks the set of missing pairs. */
  lemma MissingShrinks(units: set<string>, m0: Matrix, m: Matrix, a: string, b: string)
    requires Extends(m0, m)
    requires a in units && b in units && !Has(m0, a, b) && Has(m, a, b)
    ensures Missing(units, m) < Missing(units, m0)
  {
    assert (a, b) in Missing(units, m0);
    assert (a, b) !in Missing(units, m);
  }

  /** Growing a symmetric matrix with reflexive rows, closing each new pair, keeps both properties. */
  lemma ClosedGrowthKeepsShape(m0: Matrix, m: Matrix)
    requires Symmetric(m0) && ReflexiveRows(m0)
    requires Extends(m0, m) && NewPairsClosed(m0, m)
    requires forall x | x in m :: m[x] != map[]
    ensures Symmetric(m) && ReflexiveRows(m)
  {
    forall x, y | Has(m, x, y) ensures Has(m, y, x) {
      if Has(m0, x, y) {
        assert Has(m0, y, x);
      }
    }
    forall x | x in m ensures Has(m, x, x) {
      if x in m0 {
        assert Has(m0, x, x);
      } else {
        var y :| y in m[x];
        assert Has(m, x, y) && !Has(m0, x, y);
      }
    }
  }

  /** Identities are 1: `m[x][x] == 1` in a consistent matrix. */
  lemma {:induction false} ConsistentIdentity(m: Matrix, w: map<string, real>, x: string)
    requires Consistent(m, w) && Has(m, x, x)
    ensures m[x][x] == 1.0
  {
    assert EdgeAgrees(w, x, x, m[x][x]);
    assert (m[x][x] - 1.0) * w[x] == 0.0;
  }

  /** Reverse factors are reciprocal: `m[x][y] * m[y][x] == 1`. */
  lemma {:induction false} ConsistentInverse(m: Matrix, w: map<string, real>, x: string, y: string)
    requires Consistent(m, w) && Has(m, x, y) && Has(m, y, x)
    ensures m[x][y] * m[y][x] == 1.0
  {
    assert EdgeAgrees(w, x, y, m[x][y]) && EdgeAgrees(w, y, x, m[y][x]);
    var f, g := m[x][y], m[y][x];
    assert f * g * w[x] == f * w[y];
    assert (f * g - 1.0) * w[x] == 0.0;
  }

  /** Factors compose along a path: `m[x][y] * m[y][z] == m[x][z]`. */
  lemma {:induction false} ConsistentTransitive(m: Matrix, w: map<string, real>, x: string, y: string, z: string)
    requires Consistent(m, w) && Has(m, x, y) && Has(m, y, z) && Has(m, x, z)
    ensures m[x][y] * m[y][z] == m[x][z]
  {
    assert EdgeAgrees(w, x, y, m[x][y]) && EdgeAgrees(w, y, z, m[y][z]) && EdgeAgrees(w, x, z, m[x][z]);
    var f, g, h := m[x][y], m[y][z], m[x][z];
    assert f * g * w[z] == f * w[y];
    assert (f * g - h) * w[z] == 0.0;
  }

  /** A consistent edge "1 a = f b" determines a consistent factor for "1 b = (g / f) o"
      whenever "1 a = g o" is consistent too. */
  lemma DerivedEdgeAgrees(w: map<string, real>, a: string, b: string, f: real, o: string, g: real)
    requires EdgeAgrees(w, a, b, f) && EdgeAgrees(w, a, o, g)
    ensures f != 0.0 && EdgeAgrees(w, b, o, g / f)
  {
    calc {
      (g / f) * w[o] * f;
      g * w[o];
      w[a];
      f * w[b];
    }
  }

  /** The reverse of a consistent edge is consistent. */
  lemma ReverseEdgeAgrees(w: map<string, real>, a: string, b: string, f: real)
    requires EdgeAgrees(w, a, b, f)
    ensures f != 0.0 && EdgeAgrees(w, b, a, 1.0 / f)
  {
  }

  /** Every recorded factor is nonzero. */
  ghost predicate NonZero(m: Matrix)
  {
    forall x, y {:trigger Has(m, x, y)} :: Has(m, x, y) ==> m[x][y] != 0.0
  }

  /** Like `NewPairsClosed`, except for the one pair (a, b) still being closed. */
  ghost predicate ClosedExcept(m0: Matrix, m: Matrix, a: string, b: string)
  {
    forall x, y {:trigger Has(m, x, y)} ::
      Has(m, x, y) && !Has(m0, x, y) && !(x == a && y == b) ==> Has(m, y, x) && Has(m, x, x) && Has(m, y, y)
  }

  lemma ClosedExceptStep(m0: Matrix, m1: Matrix, m2: Matrix, a: string, b: string)
    requires ClosedExcept(m0, m1, a, b) && Extends(m1, m2) && NewPairsClosed(m1, m2)
    ensures ClosedExcept(m0, m2, a, b)
  {
    forall x, y | Has(m2, x, y) && !Has(m0, x, y) && !(x == a && y == b)
      ensures Has(m2, y, x) && Has(m2, x, x) && Has(m2, y, y)
    {
      if Has(m1, x, y) {
        assert Has(m1, y, x) && Has(m1, x, x) && Has(m1, y, y);
      }
    }
  }

  lemma ClosedExceptDone(m0: Matrix, m: Matrix, a: string, b: string)
    requires ClosedExcept(m0, m, a, b) && Has(m, b, a) && Has(m, a, a) && Has(m, b, b)
    ensures NewPairsClosed(m0, m)
  {
  }

  /** The row of `a`, empty when `a` is unknown. */
  function Row(m: Matrix, a: string): (r: map<string, real>)
  {
    if a in m then m[a] else map[]
  }

  /** `m` with "1 a = f b" recorded, creating the row of `a` when needed. */
  function Record(m: Matrix, a: string, b: string, f: real): (r: Matrix)
    ensures Has(r, a, b) && r[a][b] == f
    ensures r.Keys == m.Keys + {a}
    ensures forall x | x in m && x != a :: r[x] == m[x]
    ensures r[a].Keys == Row(m, a).Keys + {b}
    ensures forall y | y in Row(m, a) && y != b :: r[a][y] == m[a][y]
  {
    m[a := Row(m, a)[b := f]]
  }

  /** Rows and entries mention only `units`, rows are never empty and factors are nonzero. */
  ghost predicate WellFormed(units: set<string>, m: Matrix)
  {
    && (forall x | x in m :: x in units && m[x] != map[])
    && (forall x, y {:trigger Has(m, x, y)} :: Has(m, x, y) ==> y in units && m[x][y] != 0.0)
  }

  /** Every scale that agrees with `m0` and with "1 a = f b" agrees with `m`. */
  ghost predicate KeepsConsistent(m0: Matrix, m: Matrix, a: string, b: string, f: real)
  {
    forall w | Consistent(m0, w) && EdgeAgrees(w, a, b, f) :: Consistent(m, w)
  }

  /** Every scale that agrees with `m0` and with "1 a = f b" agrees with "1 x = g y". */
  ghost predicate Entails(m0: Matrix, a: string, b: string, f: real, x: string, y: string, g: real)
  {
    forall w | Consistent(m0, w) && EdgeAgrees(w, a, b, f) :: EdgeAgrees(w, x, y, g)
  }

  lemma RecordFacts(units: set<string>, m0: Matrix, a: string, b: string, f: real)
    requires WellFormed(units, m0) && a in units && b in units && f != 0.0 && !Has(m0, a, b)
    ensures WellFormed(units, Record(m0, a, b, f))
    ensures Extends(m0, Record(m0, a, b, f))
    ensures ClosedExcept(m0, Record(m0, a, b, f), a, b)
    ensures KeepsConsistent(m0, Record(m0, a, b, f), a, b, f)
    ensures forall x, y | Has(Record(m0, a, b, f), x, y) && !(x == a && y == b) :: Has(m0, x, y)
  {
    var m := Record(m0, a, b, f);
    forall x, y | Has(m, x, y) && !(x == a && y == b) ensures Has(m0, x, y) && m[x][y] == m0[x][y] {
    }
    forall w | Consistent(m0, w) && EdgeAgrees(w, a, b, f) ensures Consistent(m, w) {
      forall x, y | Has(m, x, y) ensures EdgeAgrees(w, x, y, m[x][y]) {
        if !(x == a && y == b) {
          assert Has(m0, x, y);
        }
      }
    }
  }

  /** Carrying "1 a = g o" over to `b` gives a factor every agreeing scale accepts. */
  lemma DerivedEntailed(m0: Matrix, a: string, b: string, f: real, o: string)
    requires Has(m0, a, o) && f != 0.0
    ensures Entails(m0, a, b, f, b, o, m0[a][o] / f)
  {
    forall w | Consistent(m0, w) && EdgeAgrees(w, a, b, f) ensures EdgeAgrees(w, b, o, m0[a][o] / f) {
      assert EdgeAgrees(w, a, o, m0[a][o]);
      DerivedEdgeAgrees(w, a, b, f, o, m0[a][o]);
    }
  }

  lemma ReverseEntailed(m0: Matrix, a: string, b: string, f: real)
    requires f != 0.0
    ensures Entails(m0, a, b, f, b, a, 1.0 / f)
    ensures Entails(m0, a, b, f, a, a, 1.0) && Entails(m0, a, b, f, b, b, 1.0)
  {
    forall w | Consistent(m0, w) && EdgeAgrees(w, a, b, f) ensures EdgeAgrees(w, b, a, 1.0 / f) {
      ReverseEdgeAgrees(w, a, b, f);
    }
  }

  /** One more recursive call, made after (a, b) was recorded, keeps what `set(a, b, f)` is
      building: growth, closure of every new pair but (a, b), and consistency. */
  lemma StepFacts(m0: Matrix, m1: Matrix, m2: Matrix, a: string, b: string, f: real, x: string, y: string, g: real)
    requires Extends(m0, m1) && Extends(m1, m2)
    requires ClosedExcept(m0, m1, a, b) && NewPairsClosed(m1, m2)
    requires KeepsConsistent(m0, m1, a, b, f) && KeepsConsistent(m1, m2, x, y, g)
    requires Entails(m0, a, b, f, x, y, g)
    ensures Extends(m0, m2) && ClosedExcept(m0, m2, a, b) && KeepsConsistent(m0, m2, a, b, f)
  {
    ExtendsTrans(m0, m1, m2);
    ClosedExceptStep(m0, m1, m2, a, b);
    forall w | Consistent(m0, w) && EdgeAgrees(w, a, b, f) ensures Consistent(m2, w) {
      assert Consistent(m1, w) && EdgeAgrees(w, x, y, g);
    }
  }

  lemma RecordNonZero(m: Matrix, a: string, b: string, f: real)
    requires NonZero(m) && f != 0.0
    ensures NonZero(Record(m, a, b, f))
  {
    var r := Record(m, a, b, f);
    forall x, y | Has(r, x, y) ensures r[x][y] != 0.0 {
      if !(x == a && y == b) {
        assert Has(m, x, y);
      }
    }
  }

  lemma QuotientNonZero(x: real, y: real)
    requires x != 0.0 && y != 0.0
    ensures x / y != 0.0
  {
  }

  /** A labelling `L` puts `x` and `y` in the same group. */
  ghost predicate SameGroup(L: map<string, int>, x: string, y: string)
  {
    x in L && y in L && L[x] == L[y]
  }

  /** Every recorded factor stays inside one group of `L`: no factor crosses groups. */
  ghost predicate Separated(m: Matrix, L: map<string, int>)
  {
    forall x, y {:trigger Has(m, x, y)} :: Has(m, x, y) ==> SameGroup(L, x, y)
  }

  /** Every labelling that separates `m0` and puts `a` and `b` together separates `m`. */
  ghost predicate KeepsSeparated(m0: Matrix, m: Matrix, a: string, b: string)
  {
    forall L | Separated(m0, L) && SameGroup(L, a, b) :: Separated(m, L)
  }

  lemma RecordSeparated(m0: Matrix, a: string, b: string, f: real)
    ensures KeepsSeparated(m0, Record(m0, a, b, f), a, b)
  {
    var m := Record(m0, a, b, f);
    forall L | Separated(m0, L) && SameGroup(L, a, b) ensures Separated(m, L) {
      forall x, y | Has(m, x, y) ensures SameGroup(L, x, y) {
        if !(x == a && y == b) {
          assert Has(m0, x, y);
        }
      }
    }
  }

  /** Growth that a recursive call `set(x, y, _)` makes, with `x` and `y` in the group of `a`
      and `b`, keeps the groups apart. */
  lemma StepSeparated(m0: Matrix, m1: Matrix, m2: Matrix, a: string, b: string, x: string, y: string)
    requires KeepsSeparated(m0, m1, a, b) && KeepsSeparated(m1, m2, x, y)
    requires forall L | Separated(m0, L) && SameGroup(L, a, b) :: SameGroup(L, x, y)
    ensures KeepsSeparated(m0, m2, a, b)
  {
    forall L | Separated(m0, L) && SameGroup(L, a, b) ensures Separated(m2, L) {
      assert Separated(m1, L) && SameGroup(L, x, y);
    }
  }

  /** Factors compose: a pair reachable in two steps is recorded. */
  ghost predicate Transitive(m: Matrix)
  {
    forall x, y, z {:trigger Has(m, x, y), Has(m, y, z)} :: Has(m, x, y) && Has(m, y, z) ==> Has(m, x, z)
  }

  /** The history of `set`: for every recorded pair (x, y), the targets `x`'s row had just
      before y was added to it. */
  type Log = map<(string, string), set<string>>

  ghost predicate Logged(log: Log, x: string, y: string)
  {
    (x, y) in log
  }

  /** Exactly the recorded pairs are logged. */
  ghost predicate LogCovers(m: Matrix, log: Log)
  {
    forall x, y {:trigger Has(m, x, y)} {:trigger Logged(log, x, y)} :: Has(m, x, y) <==> Logged(log, x, y)
  }

  /** Of two pairs logged from one unit, one was recorded first and so lies in the other's snapshot. */
  ghost predicate Ordered(log: Log)
  {
    forall x, y, z {:trigger Logged(log, x, y), Logged(log, x, z)} ::
      Logged(log, x, y) && Logged(log, x, z) && y != z ==> z in log[(x, y)] || y in log[(x, z)]
  }

  /** The call that recorded (x, y) has done its work: the reverse and both identities are
      recorded, and `y`'s row holds everything `x`'s row held when (x, y) was recorded. */
  ghost predicate Finished(m: Matrix, log: Log, x: string, y: string)
    requires Logged(log, x, y)
  {
    Has(m, y, x) && Has(m, x, x) && Has(m, y, y) && forall z | z in log[(x, y)] :: Has(m, y, z)
  }

  /** Every logged pair whose call is not still running (in `running`) has finished. */
  ghost predicate FinishedExcept(m: Matrix, log: Log, running: set<(string, string)>)
  {
    forall x, y {:trigger Logged(log, x, y)} ::
      Logged(log, x, y) && (x, y) !in running ==> Finished(m, log, x, y)
  }

  /** `log0`'s entries survive unchanged in `log`. */
  ghost predicate LogExtends(log0: Log, log: Log)
  {
    forall x, y {:trigger Logged(log0, x, y)} ::
      Logged(log0, x, y) ==> Logged(log, x, y) && log[(x, y)] == log0[(x, y)]
  }

  /** Recording a new pair and logging the row it joins keeps the log sound; the new pair's
      call is running. */
  lemma LogRecordFacts(m: Matrix, log: Log, running: set<(string, string)>, a: string, b: string, f: real)
    requires LogCovers(m, log) && Ordered(log) && FinishedExcept(m, log, running) && !Has(m, a, b)
    ensures LogCovers(Record(m, a, b, f), log[(a, b) := Row(m, a).Keys])
    ensures Ordered(log[(a, b) := Row(m, a).Keys])
    ensures FinishedExcept(Record(m, a, b, f), log[(a, b) := Row(m, a).Keys], running + {(a, b)})
    ensures LogExtends(log, log[(a, b) := Row(m, a).Keys])
  {
    var m', log' := Record(m, a, b, f), log[(a, b) := Row(m, a).Keys];
    forall x, y ensures Has(m', x, y) <==> Logged(log', x, y) {
      if !(x == a && y == b) {
        assert Has(m', x, y) <==> Has(m, x, y);
      }
    }
    forall x, y, z | Logged(log', x, y) && Logged(log', x, z) && y != z
      ensures z in log'[(x, y)] || y in log'[(x, z)]
    {
      if x == a && y == b {
        assert Has(m, a, z);
      } else if x == a && z == b {
        assert Has(m, a, y);
      } else {
        assert Logged(log, x, y) && Logged(log, x, z);
      }
    }
    forall x, y | Logged(log', x, y) && (x, y) !in running + {(a, b)} ensures Finished(m', log', x, y) {
      assert Logged(log, x, y) && Finished(m, log, x, y);
      forall z | z in log'[(x, y)] ensures Has(m', y, z) {
        assert Has(m, y, z);
      }
    }
  }

  /** A sound log with no call running makes the matrix transitive: suppose (x, y) and (x, z)
      are recorded. Whichever was recorded first is in the later one's snapshot, which the
      later call copied into its target's row. */
  lemma {:induction false} RowsAgree(m: Matrix, log: Log, x: string, y: string, z: string)
    requires LogCovers(m, log) && Ordered(log) && FinishedExcept(m, log, {}) && Symmetric(m)
    requires Has(m, x, y) && Has(m, x, z)
    ensures Has(m, y, z)
  {
    assert Logged(log, x, y) && Finished(m, log, x, y);
    assert Logged(log, x, z) && Finished(m, log, x, z);
    if y == z {
    } else if z in log[(x, y)] {
    } else {
      assert y in log[(x, z)];
      assert Has(m, z, y);
    }
  }

  lemma FinishedLogIsTransitive(m: Matrix, log: Log)
    requires LogCovers(m, log) && Ordered(log) && FinishedExcept(m, log, {}) && Symmetric(m)
    ensures Transitive(m)
  {
    forall x, y, z | Has(m, x, y) && Has(m, y, z) ensures Has(m, x, z) {
      assert Has(m, y, x);
      RowsAgree(m, log, y, x, z);
    }
  }

  lemma LogExtendsTrans(log0: Log, log1: Log, log2: Log)
    requires LogExtends(log0, log1) && LogExtends(log1, log2)
    ensures LogExtends(log0, log2)
  {
    forall x, y | Logged(log0, x, y) ensures Logged(log2, x, y) && log2[(x, y)] == log0[(x, y)] {
      assert Logged(log1, x, y);
    }
  }

  /** Once the call for (a, b) has finished, it no longer needs to count as running. */
  lemma FinishedPop(m: Matrix, log: Log, running: set<(string, string)>, a: string, b: string)
    requires FinishedExcept(m, log, running + {(a, b)})
    requires Logged(log, a, b) && Finished(m, log, a, b)
    ensures FinishedExcept(m, log, running)
  {
  }

  /** The log is sound for the calls in `running`: see `LogCovers`, `Ordered`, `FinishedExcept`. */
  ghost predicate LogSound(m: Matrix, log: Log, running: set<(string, string)>)
  {
    LogCovers(m, log) && Ordered(log) && FinishedExcept(m, log, running)
  }

  /** The log as it stands inside the call for (a, b), whose snapshot was `row`, after the
      targets of `row` outside `todo` were carried over to `b`. */
  ghost predicate Carried(m: Matrix, log0: Log, log: Log, a: string, b: string, row: set<string>, todo: set<string>)
  {
    && LogExtends(log0, log) && Logged(log, a, b) && log[(a, b)] == row
    && forall o | o in row - todo :: Has(m, b, o)
  }

  /** A nested call for `o` carries `o` over and keeps the log. */
  lemma CarriedStep(m1: Matrix, m2: Matrix, log0: Log, log1: Log, log2: Log, a: string, b: string,
                    row: set<string>, todo: set<string>, o: string)
    requires Carried(m1, log0, log1, a, b, row, todo) && Extends(m1, m2) && LogExtends(log1, log2)
    requires Has(m2, b, o)
    ensures Carried(m2, log0, log2, a, b, row, todo - {o})
  {
    LogExtendsTrans(log0, log1, log2);
    assert Logged(log1, a, b);
    forall x | x in row - (todo - {o}) ensures Has(m2, b, x) {
      if x != o {
        assert Has(m1, b, x);
      }
    }
  }

  /** Later nested calls keep what was carried. */
  lemma CarriedKeep(m1: Matrix, m2: Matrix, log0: Log, log1: Log, log2: Log, a: string, b: string, row: set<string>)
    requires Carried(m1, log0, log1, a, b, row, {}) && Extends(m1, m2) && LogExtends(log1, log2)
    ensures Carried(m2, log0, log2, a, b, row, {})
  {
    LogExtendsTrans(log0, log1, log2);
    assert Logged(log1, a, b);
    forall x | x in row ensures Has(m2, b, x) {
      assert Has(m1, b, x);
    }
  }

  /** With the reverse and identities in place, the call for (a, b) has finished. */
  lemma CarriedDone(m: Matrix, log0: Log, log: Log, running: set<(string, string)>, a: string, b: string, row: set<string>)
    requires Carried(m, log0, log, a, b, row, {}) && LogSound(m, log, running + {(a, b)})
    requires Has(m, b, a) && Has(m, a, a) && Has(m, b, b)
    ensures LogSound(m, log, running) && LogExtends(log0, log)
  {
    FinishedPop(m, log, running, a, b);
  }

  /** The identity factor of `x`, when recorded, is exactly 1. */
  ghost predicate IdentityOne(m: Matrix, x: string)
  {
    Has(m, x, x) ==> m[x][x] == 1.0
  }

  /** Every recorded identity factor is exactly 1. */
  ghost predicate IdOne(m: Matrix)
  {
    forall x :: IdentityOne(m, x)
  }

  /** If `set(a, b, f)` newly recorded the identity of `x`, its factor is 1, or `f` when the
      pair itself is that identity. */
  ghost predicate NewIdentity(m0: Matrix, m: Matrix, a: string, b: string, f: real, x: string)
  {
    Has(m, x, x) && !Has(m0, x, x) ==> m[x][x] == (if x == a && x == b then f else 1.0)
  }

  ghost predicate NewIdentitiesOne(m0: Matrix, m: Matrix, a: string, b: string, f: real)
  {
    forall x :: NewIdentity(m0, m, a, b, f, x)
  }

  lemma RecordNewIdentities(m0: Matrix, a: string, b: string, f: real)
    ensures NewIdentitiesOne(m0, Record(m0, a, b, f), a, b, f)
  {
    var m := Record(m0, a, b, f);
    forall x ensures NewIdentity(m0, m, a, b, f, x) {
      if Has(m, x, x) && !(x == a && x == b) {
        assert Has(m0, x, x);
      }
    }
  }

  /** A nested call that records no identity other than 1, after (a, b) is recorded, keeps
      what `set(a, b, f)` promises about identities. */
  lemma NewIdentitiesStep(m0: Matrix, m1: Matrix, m2: Matrix, a: string, b: string, f: real, x: string, y: string, g: real)
    requires NewIdentitiesOne(m0, m1, a, b, f) && Has(m1, a, b) && Extends(m1, m2)
    requires NewIdentitiesOne(m1, m2, x, y, g) && (x == y ==> g == 1.0 || Has(m1, x, y))
    ensures NewIdentitiesOne(m0, m2, a, b, f)
  {
    forall z ensures NewIdentity(m0, m2, a, b, f, z) {
      if Has(m2, z, z) && !Has(m0, z, z) {
        assert NewIdentity(m0, m1, a, b, f, z) && NewIdentity(m1, m2, x, y, g, z);
      }
    }
  }

  /** Growth that records no identity other than 1 keeps every identity at 1. */
  lemma IdOneGrows(m0: Matrix, m: Matrix, a: string, b: string, f: real)
    requires IdOne(m0) && Extends(m0, m) && NewIdentitiesOne(m0, m, a, b, f) && (a == b ==> f == 1.0)
    ensures IdOne(m)
  {
    forall x ensures IdentityOne(m, x) {
      if Has(m, x, x) {
        assert IdentityOne(m0, x) && NewIdentity(m0, m, a, b, f, x);
      }
    }
  }
}

/** Unit propagation: `simplify_unit_clauses` (lab.py:57-93). */
module Propagation {
  import opened Cnf
  import opened FormulaUpdate

  /** The list comprehension of lab.py:81: the clauses with exactly one literal. */
  function UnitClauses(f: Formula): (r: Formula)
    ensures forall c :: c in r <==> c in f && |c| == 1
  {
    if f == [] then []
    else (if |f[0]| == 1 then [f[0]] else []) + UnitClauses(f[1..])
  }

  /** The unit clauses of a round not yet processed: each is still in the
      formula, or its literal is already true under the forced assignment
      (an earlier unit clause of the round asserted the same literal). */
  ghost predicate Pending(units: Formula, from: nat, F: Formula, a: Assignment) {
    forall j :: from <= j < |units| ==> |units[j]| == 1 && (units[j] in F || LitTrue(a, units[j][0]))
  }

  lemma MapUpdateIsUnion(a: Assignment, v: Var, b: bool)
    ensures a + map[v := b] == a[v := b]
  {
    var u := map[v := b];
    assert (a + u).Keys == a.Keys + {v} == a[v := b].Keys;
    forall x | x in a + u ensures (a + u)[x] == a[v := b][x] {
      if x != v {
        assert x !in u;
      }
    }
  }

  /** Assigning the literal of a unit clause that is still in the formula:
      the variable was unassigned, the input under the new assignment is the
      formula reduced once more, and the formula gets shorter. */
  lemma AssignUnitReduces(f: Formula, a: Assignment, l: Literal)
    requires [l] in Reduce(f, a)
    ensures l.variable !in a
    ensures Reduce(Reduce(f, a), map[l.variable := l.value]) == Reduce(f, a[l.variable := l.value])
    ensures |Reduce(Reduce(f, a), map[l.variable := l.value])| < |Reduce(f, a)|
  {
    var F := Reduce(f, a);
    var u := map[l.variable := l.value];
    assert l in Literals(F) by {
      assert l in [l];
    }
    ReduceLiterals(f, a);
    assert l.variable in Vars(F);
    assert l.variable !in a;
    assert forall x :: x in a ==> x !in u;
    ReduceCompose(f, a, u);
    MapUpdateIsUnion(a, l.variable, l.value);
    assert LitTrue(u, l) && l in [l];
    ReduceShrinks(F, u, [l]);
  }

  /** What a unit clause still in the formula forces is forced by the input,
      and its literal is one of the input's. */
  lemma AssignUnitForced(f: Formula, a: Assignment, l: Literal)
    requires [l] in Reduce(f, a)
    requires Forces(f, a) && Supported(a, f)
    ensures Forces(f, a[l.variable := l.value])
    ensures Supported(a[l.variable := l.value], f)
  {
    forall e | Satisfies(e, f) ensures Extends(e, a[l.variable := l.value]) {
      ReduceSatisfies(f, a, e);
      assert ClauseSat(e, [l]);
    }
    ReduceLiterals(f, a);
    assert l in Literals(Reduce(f, a)) by {
      assert l in [l];
    }
  }

  /** Processing a unit clause `[l]` of the round, stale or not, keeps the
      loop's invariant: the formula is the input under the forced assignment,
      the input forces it, and every forced value is one of its literals. */
  lemma PropagateStep(f: Formula, a: Assignment, l: Literal)
    requires [l] in Reduce(f, a) || LitTrue(a, l)
    requires Forces(f, a) && Supported(a, f)
    ensures Reduce(Reduce(f, a), map[l.variable := l.value]) == Reduce(f, a[l.variable := l.value])
    ensures Forces(f, a[l.variable := l.value]) && Supported(a[l.variable := l.value], f)
    ensures |Reduce(Reduce(f, a), map[l.variable := l.value])| <= |Reduce(f, a)|
    ensures [l] in Reduce(f, a) ==> |Reduce(Reduce(f, a), map[l.variable := l.value])| < |Reduce(f, a)|
    ensures [l] in Reduce(f, a) ==> l.variable !in a
    ensures [l] !in Reduce(f, a) ==> a[l.variable := l.value] == a
  {
    if [l] in Reduce(f, a) {
      AssignUnitReduces(f, a, l);
      AssignUnitForced(f, a, l);
    } else {
      assert a[l.variable := l.value] == a;
      ReduceLiterals(f, a);
      ReduceUntouched(Reduce(f, a), map[l.variable := l.value]);
    }
  }

  /** A unit clause `[m]` still in the formula survives the assignment of
      another literal `l` unless it becomes the empty clause. */
  lemma UnitSurvives(F: Formula, l: Literal, m: Literal)
    requires [m] in F && m != l
    ensures m.variable == l.variable ==> [] in Reduce(F, map[l.variable := l.value])
    ensures m.variable != l.variable ==> [m] in Reduce(F, map[l.variable := l.value])
  {
    var u := map[l.variable := l.value];
    ReduceMembers(F, u);
    if m.variable == l.variable {
      assert !ClauseSat(u, [m]);
      assert Strip([m], u) == [];
    } else {
      assert !LitTrue(u, m);
      assert !ClauseSat(u, [m]);
      assert Strip([m], u) == [m];
    }
  }

  /** After the unit clause at `k` is processed without a conflict, the later
      ones of the round are still pending. */
  lemma PendingStep(units: Formula, k: nat, f: Formula, a: Assignment, l: Literal)
    requires k < |units| && units[k] == [l]
    requires Pending(units, k, Reduce(f, a), a)
    requires [] !in Reduce(Reduce(f, a), map[l.variable := l.value])
    requires [l] in Reduce(f, a) ==> l.variable !in a
    requires [l] !in Reduce(f, a) ==> a[l.variable := l.value] == a
    requires Reduce(Reduce(f, a), map[l.variable := l.value]) == Reduce(f, a[l.variable := l.value])
    ensures Pending(units, k + 1, Reduce(f, a[l.variable := l.value]), a[l.variable := l.value])
  {
    var F := Reduce(f, a);
    var a' := a[l.variable := l.value];
    forall j | k + 1 <= j < |units|
      ensures units[j] in Reduce(f, a') || LitTrue(a', units[j][0])
    {
      var m := units[j][0];
      assert units[j] == [m];
      if [l] !in F {
      } else if units[j] in F && m != l {
        UnitSurvives(F, l, m);
      } else if units[j] !in F {
        assert LitTrue(a, m);
        assert m.variable != l.variable by {
          ReduceLiterals(f, a);
          assert l in Literals(F) by {
            assert l in [l];
          }
        }
      }
    }
  }

  /** `simplify_unit_clauses` (lab.py:57-93). `result` is `None` on a conflict;
      otherwise `residual` is the input under the returned assignment, with no
      unit clause left, the input forces the returned assignment, and every
      forced value comes from a literal of the input. */
  method SimplifyUnitClauses(f: Formula) returns (residual: Formula, result: Option<Assignment>)
    ensures |residual| <= |f|
    ensures result.None? ==> [] in residual && !Satisfiable(f)
    ensures result.Some? ==> residual == Reduce(f, result.value)
    ensures result.Some? ==> forall c :: c in residual ==> |c| != 1
    ensures result.Some? ==> Forces(f, result.value) && Supported(result.value, f)
    ensures result.Some? && [] !in f ==> [] !in residual
  {
    var forced: Assignment := map[];
    var formula := f;
    assert Reduce(f, forced) == f by {
      ReduceUntouched(f, forced);
    }
    while true
      invariant formula == Reduce(f, forced)
      invariant [] !in f ==> [] !in formula
      invariant Forces(f, forced) && Supported(forced, f)
      decreases |formula|
    {
      var units := UnitClauses(formula);
      if units == [] {
        break;
      }
      ghost var roundStart := formula;
      for k := 0 to |units|
        invariant formula == Reduce(f, forced)
        invariant Forces(f, forced) && Supported(forced, f)
        invariant k == 0 ==> formula == roundStart
        invariant k > 0 ==> |formula| < |roundStart| && [] !in formula
        invariant Pending(units, k, formula, forced)
      {
        var lit := units[k][0];
        assert units[k] == [lit];
        ghost var before := forced;
        PropagateStep(f, forced, lit);
        forced := forced[lit.variable := lit.value];
        formula := UpdateFormula(formula, lit.variable, lit.value);
        if formula == [] {
          return formula, Some(forced);
        }
        var conflict := HasEmptyClause(formula);
        if conflict {
          forall e | Satisfies(e, f) ensures false {
            ReduceSatisfies(f, forced, e);
            EmptyClauseUnsatisfiable(formula);
          }
          return formula, None;
        }
        PendingStep(units, k, f, before, lit);
      }
    }
    return formula, Some(forced);
  }

  /** A clause the assignment leaves unsatisfied survives, stripped. */
  lemma StrippedSurvives(f: Formula, a: Assignment, c: Clause)
    requires c in f && !ClauseSat(a, c)
    ensures Strip(c, a) in Reduce(f, a)
  {
    ReduceMembers(f, a);
  }

  /** Propagation on `[[x], [not y, not x]]` that ends with no unit clause
      and keeps to what `{x: true, y: false}` says must assign both variables
      and leave nothing. */
  lemma ChainedUnitsAssigned(x: Var, y: Var, a: Assignment)
    requires x != y
    requires Extends(map[x := true, y := false], a)
    requires forall c :: c in Reduce([[Literal(x, true)], [Literal(y, false), Literal(x, false)]], a) ==> |c| != 1
    ensures a == map[x := true, y := false]
    ensures Reduce([[Literal(x, true)], [Literal(y, false), Literal(x, false)]], a) == []
  {
    var f := [[Literal(x, true)], [Literal(y, false), Literal(x, false)]];
    if y !in a {
      assert !ClauseSat(a, f[1]) && Strip(f[1], a) == [Literal(y, false)];
      StrippedSurvives(f, a, f[1]);
    }
    assert a == map[x := true, y := false];
    assert LitTrue(a, f[0][0]) && LitTrue(a, f[1][0]);
    assert Reduce(f, a) == Reduce(f[1..], a) == Reduce(f[2..], a);
  }

  /** The first doctest of lab.py:67-68, for any two distinct variables:
      whatever satisfies the contract of `SimplifyUnitClauses` on
      `[[x], [not y, not x]]` assigns both variables and leaves nothing. */
  lemma ChainedUnits(x: Var, y: Var, residual: Formula, result: Option<Assignment>)
    requires x != y
    requires result.None? ==> !Satisfiable([[Literal(x, true)], [Literal(y, false), Literal(x, false)]])
    requires result.Some? ==> residual == Reduce([[Literal(x, true)], [Literal(y, false), Literal(x, false)]], result.value)
    requires result.Some? ==> (forall c :: c in residual ==> |c| != 1)
    requires result.Some? ==> Forces([[Literal(x, true)], [Literal(y, false), Literal(x, false)]], result.value)
    ensures residual == [] && result == Some(map[x := true, y := false])
  {
    var f := [[Literal(x, true)], [Literal(y, false), Literal(x, false)]];
    var e := map[x := true, y := false];
    assert Satisfies(e, f) by {
      assert LitTrue(e, f[0][0]) && LitTrue(e, f[1][0]);
    }
    ChainedUnitsAssigned(x, y, result.value);
  }

  /** Propagation on `[[x, not y], [z]]` that ends with no unit clause and
      keeps to what both `{x: true, z: true}` and `{y: false, z: true}` say
      can assign only `z`, and keeps the first clause. */
  lemma LoneUnitAssigned(x: Var, y: Var, z: Var, a: Assignment)
    requires x != y && y != z && x != z
    requires Extends(map[x := true, z := true], a) && Extends(map[y := false, z := true], a)
    requires forall c :: c in Reduce([[Literal(x, true), Literal(y, false)], [Literal(z, true)]], a) ==> |c| != 1
    ensures a == map[z := true]
    ensures Reduce([[Literal(x, true), Literal(y, false)], [Literal(z, true)]], a) == [[Literal(x, true), Literal(y, false)]]
  {
    var f := [[Literal(x, true), Literal(y, false)], [Literal(z, true)]];
    assert z in a by {
      if z !in a {
        assert !LitTrue(a, Literal(z, true));
        StrippedSurvives(f, a, f[1]);
      }
    }
    assert a.Keys == {z};
    assert a == map[z := true];
    assert !ClauseSat(a, f[0]) && Strip(f[0], a) == f[0];
    assert LitTrue(a, f[1][0]);
    assert Reduce(f[1..], a) == Reduce(f[2..], a);
  }

  /** The second doctest of lab.py:69-70, for any three distinct variables:
      whatever satisfies the contract of `SimplifyUnitClauses` on
      `[[x, not y], [z]]` assigns only `z`, since `x` and `y` each have a
      satisfying assignment leaving them out, and keeps the first clause. */
  lemma LoneUnit(x: Var, y: Var, z: Var, residual: Formula, result: Option<Assignment>)
    requires x != y && y != z && x != z
    requires result.None? ==> !Satisfiable([[Literal(x, true), Literal(y, false)], [Literal(z, true)]])
    requires result.Some? ==> residual == Reduce([[Literal(x, true), Literal(y, false)], [Literal(z, true)]], result.value)
    requires result.Some? ==> (forall c :: c in residual ==> |c| != 1)
    requires result.Some? ==> Forces([[Literal(x, true), Literal(y, false)], [Literal(z, true)]], result.value)
    ensures residual == [[Literal(x, true), Literal(y, false)]] && result == Some(map[z := true])
  {
    var f := [[Literal(x, true), Literal(y, false)], [Literal(z, true)]];
    var e1 := map[x := true, z := true];
    var e2 := map[y := false, z := true];
    assert Satisfies(e1, f) by {
      assert LitTrue(e1, f[0][0]) && LitTrue(e1, f[1][0]);
    }
    assert Satisfies(e2, f) by {
      assert LitTrue(e2, f[0][1]) && LitTrue(e2, f[1][0]);
    }
    LoneUnitAssigned(x, y, z, result.value);
  }

  /** The two doctests of lab.py:67-70. */
  method SimplifyUnitClausesExamples() returns (r1: Formula, a1: Option<Assignment>, r2: Formula, a2: Option<Assignment>)
    ensures r1 == [] && a1 == Some(map["a" := true, "b" := false])
    ensures r2 == [[Literal("a", true), Literal("b", false)]] && a2 == Some(map["c" := true])
  {
    r1, a1 := SimplifyUnitClauses([[Literal("a", true)], [Literal("b", false), Literal("a", false)]]);
    ChainedUnits("a", "b", r1, a1);
    r2, a2 := SimplifyUnitClauses([[Literal("a", true), Literal("b", false)], [Literal("c", true)]]);
    LoneUnit("a", "b", "c", r2, a2);
  }
}

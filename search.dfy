/** The DPLL search: `satisfying_assignment` (lab.py:96-138). */
module Search {
  import opened Cnf
  import opened FormulaUpdate
  import opened Propagation

  /** Branching on `l` over `F` fails: `F` with `l` made true is unsatisfiable. */
  ghost predicate Refuted(F: Formula, l: Literal) {
    !Satisfiable(Reduce(F, map[l.variable := l.value]))
  }

  /** Every one of the first `n` literals of `c` is refuted over `F`. */
  ghost predicate AllRefuted(F: Formula, c: Clause, n: nat)
    requires n <= |c|
  {
    forall j :: 0 <= j < n ==> Refuted(F, c[j])
  }

  /** A failed branch on `c[n]` extends the refuted prefix of `c` by one. */
  lemma BranchRefuted(F: Formula, c: Clause, n: nat, next: Formula)
    requires n < |c| && AllRefuted(F, c, n)
    requires next == Reduce(F, map[c[n].variable := c[n].value]) && !Satisfiable(next)
    ensures AllRefuted(F, c, n + 1)
  {
  }

  /** The variables a successful branch assigns are new: neither the
      branching variable nor a forced one occurs in the formula it solved. */
  lemma BranchVarsFresh(f: Formula, forced: Assignment, l: Literal, sub: Assignment)
    requires l in Literals(Reduce(f, forced))
    requires Supported(sub, Reduce(Reduce(f, forced), map[l.variable := l.value]))
    ensures l.variable !in forced
    ensures forall x :: x in sub ==> x !in forced && x != l.variable
  {
    var residual := Reduce(f, forced);
    var next := Reduce(residual, map[l.variable := l.value]);
    ReduceLiterals(f, forced);
    ReduceLiterals(residual, map[l.variable := l.value]);
    forall x | x in sub ensures x !in forced && x != l.variable {
      assert Literal(x, sub[x]) in Literals(next);
    }
  }

  /** The merge of lab.py:135-136 agrees with each of its parts when they
      assign pairwise distinct variables: it overwrites nothing. */
  lemma MergeExtends(forced: Assignment, l: Literal, sub: Assignment)
    requires l.variable !in forced
    requires forall x :: x in sub ==> x !in forced && x != l.variable
    ensures Extends((forced + sub)[l.variable := l.value], sub)
    ensures Extends((forced + sub)[l.variable := l.value], forced)
    ensures LitTrue((forced + sub)[l.variable := l.value], l)
  {
  }

  /** Merging a branch's satisfying assignment into the propagation's, as
      lab.py:135-136 does, satisfies the input. */
  lemma MergeSatisfies(f: Formula, forced: Assignment, l: Literal, sub: Assignment)
    requires Forces(f, forced)
    requires l.variable !in forced
    requires forall x :: x in sub ==> x !in forced && x != l.variable
    requires Satisfies(sub, Reduce(Reduce(f, forced), map[l.variable := l.value]))
    ensures Satisfies((forced + sub)[l.variable := l.value], f)
    ensures Satisfiable(f)
  {
    var residual := Reduce(f, forced);
    var u := map[l.variable := l.value];
    var merged := (forced + sub)[l.variable := l.value];
    MergeExtends(forced, l, sub);
    assert Extends(merged, u);
    ExtendsSatisfies(merged, sub, Reduce(residual, u));
    ReduceSatisfies(residual, u, merged);
    ReduceSatisfies(f, forced, merged);
  }

  /** Every value of the merge is still asserted by a literal of the input. */
  lemma MergeSupported(f: Formula, forced: Assignment, l: Literal, sub: Assignment)
    requires Supported(forced, f)
    requires l in Literals(Reduce(f, forced))
    requires Supported(sub, Reduce(Reduce(f, forced), map[l.variable := l.value]))
    ensures Supported((forced + sub)[l.variable := l.value], f)
  {
    var residual := Reduce(f, forced);
    var next := Reduce(residual, map[l.variable := l.value]);
    var merged := (forced + sub)[l.variable := l.value];
    ReduceLiterals(f, forced);
    ReduceLiterals(residual, map[l.variable := l.value]);
    forall x | x in merged ensures Literal(x, merged[x]) in Literals(f) {
      if x == l.variable {
      } else if x in sub {
        assert Literal(x, sub[x]) in Literals(next);
      }
    }
  }

  /** If every branch on the literals of the first clause of the residual
      formula is refuted, the input is unsatisfiable. */
  lemma AllBranchesFail(f: Formula, forced: Assignment, first: Clause)
    requires Forces(f, forced)
    requires first in Reduce(f, forced)
    requires AllRefuted(Reduce(f, forced), first, |first|)
    ensures !Satisfiable(f)
  {
    forall e | Satisfies(e, f) ensures false {
      ReduceSatisfies(f, forced, e);
      var l :| l in first && LitTrue(e, l);
      var j :| 0 <= j < |first| && first[j] == l;
      ReduceSatisfies(Reduce(f, forced), map[l.variable := l.value], e);
    }
  }

  /** `satisfying_assignment` (lab.py:96-138): `Some` exactly when the formula
      is satisfiable, and then an assignment that satisfies it and gives only
      values asserted by the formula's literals. */
  method SatisfyingAssignment(f: Formula) returns (r: Option<Assignment>)
    ensures r.Some? <==> Satisfiable(f)
    ensures r.Some? ==> Satisfies(r.value, f) && Supported(r.value, f)
    ensures f == [] ==> r == Some(map[])
    decreases |f|, 1
  {
    if f == [] {
      assert Satisfiable(f) by {
        assert Satisfies(map[], f);
      }
      return Some(map[]);
    }
    var conflict := HasEmptyClause(f);
    if conflict {
      EmptyClauseUnsatisfiable(f);
      return None;
    }
    var residual, result := SimplifyUnitClauses(f);
    if residual == [] {
      assert result.Some? && Satisfies(result.value, f) && Satisfiable(f) by {
        ReduceSatisfies(f, result.value, result.value);
      }
      return result;
    }
    if result.None? {
      return None;
    }
    r := TryBranches(f, result.value, residual);
  }

  /** The branching loop of `satisfying_assignment` (lab.py:128-138): try each
      literal of the first clause of the residual formula in turn, and merge
      the first branch that succeeds into the forced assignment. */
  method TryBranches(f: Formula, forced: Assignment, residual: Formula) returns (r: Option<Assignment>)
    requires residual == Reduce(f, forced) && residual != []
    requires Forces(f, forced) && Supported(forced, f)
    ensures r.Some? <==> Satisfiable(f)
    ensures r.Some? ==> Satisfies(r.value, f) && Supported(r.value, f)
    decreases |residual|, 0
  {
    var first := residual[0];
    for i := 0 to |first|
      invariant AllRefuted(residual, first, i)
    {
      var lit := first[i];
      var next := UpdateFormula(residual, lit.variable, lit.value);
      assert |next| < |residual| by {
        assert LitTrue(map[lit.variable := lit.value], lit);
        ReduceShrinks(residual, map[lit.variable := lit.value], first);
      }
      var sub := SatisfyingAssignment(next);
      if sub.Some? {
        assert lit in Literals(residual) by {
          assert first in residual;
        }
        var merged := forced + sub.value;
        merged := merged[lit.variable := lit.value];
        BranchVarsFresh(f, forced, lit, sub.value);
        MergeSatisfies(f, forced, lit, sub.value);
        MergeSupported(f, forced, lit, sub.value);
        return Some(merged);
      }
      BranchRefuted(residual, first, i, next);
    }
    AllBranchesFail(f, forced, first);
    return None;
  }

  /** A single clause with a literal is satisfied by making that literal true. */
  lemma SingleClauseSatisfiable(c: Clause)
    requires c != []
    ensures Satisfiable([c])
  {
    var a := map[c[0].variable := c[0].value];
    assert ClauseSat(a, c) by {
      assert c[0] in c && LitTrue(a, c[0]);
    }
    assert Satisfies(a, [c]);
  }

  /** Two unit clauses asserting opposite values of one variable clash. */
  lemma ClashUnsatisfiable(v: Var)
    ensures !Satisfiable([[Literal(v, true)], [Literal(v, false)]])
  {
    var f := [[Literal(v, true)], [Literal(v, false)]];
    forall e: Assignment ensures !Satisfies(e, f) {
      if LitTrue(e, Literal(v, true)) {
        assert !ClauseSat(e, f[1]);
      } else {
        assert !ClauseSat(e, f[0]);
      }
    }
  }

  /** The doctests of lab.py:102-108. */
  method SatisfyingAssignmentExamples() returns (empty: Option<Assignment>, one: Option<Assignment>, clash: Option<Assignment>)
    ensures empty == Some(map[])
    ensures one.Some?
    ensures one.Some? ==> LitTrue(one.value, Literal("a", true)) || LitTrue(one.value, Literal("b", false))
                          || LitTrue(one.value, Literal("c", true))
    ensures clash.None?
  {
    empty := SatisfyingAssignment([]);
    var clause := [Literal("a", true), Literal("b", false), Literal("c", true)];
    SingleClauseSatisfiable(clause);
    one := SatisfyingAssignment([clause]);
    assert ClauseSat(one.value, clause) by {
      assert clause in [clause];
    }
    ClashUnsatisfiable("a");
    clash := SatisfyingAssignment([[Literal("a", true)], [Literal("a", false)]]);
  }
}

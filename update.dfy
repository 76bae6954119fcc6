/** Simplifying a formula under an assignment: the single primitive that unit
    propagation and the search are built on (lab.py:17-54). */
module FormulaUpdate {
  import opened Cnf

  /** The literals of `c` on variables `a` leaves unassigned, in order. */
  function Strip(c: Clause, a: Assignment): (r: Clause)
    ensures |r| <= |c|
    ensures forall l :: l in r <==> l in c && l.variable !in a
  {
    if c == [] then []
    else (if c[0].variable in a then [] else [c[0]]) + Strip(c[1..], a)
  }

  /** `f` under the partial assignment `a`: a clause `a` satisfies is dropped,
      and the literals `a` falsifies are removed from every other clause. */
  function Reduce(f: Formula, a: Assignment): (r: Formula)
    ensures |r| <= |f|
  {
    if f == [] then []
    else (if ClauseSat(a, f[0]) then [] else [Strip(f[0], a)]) + Reduce(f[1..], a)
  }

  /** The clauses of the reduced formula are exactly the stripped clauses
      that `a` does not satisfy. */
  lemma {:induction false} ReduceMembers(f: Formula, a: Assignment)
    ensures forall d :: d in Reduce(f, a) <==> exists c :: c in f && !ClauseSat(a, c) && d == Strip(c, a)
  {
    if f != [] {
      ReduceMembers(f[1..], a);
      forall d ensures d in Reduce(f, a) <==> exists c :: c in f && !ClauseSat(a, c) && d == Strip(c, a) {
        if d in Reduce(f, a) && d !in Reduce(f[1..], a) {
          assert !ClauseSat(a, f[0]) && d == Strip(f[0], a);
        }
        if exists c :: c in f && !ClauseSat(a, c) && d == Strip(c, a) {
          var c :| c in f && !ClauseSat(a, c) && d == Strip(c, a);
          if c != f[0] {
            assert c in f[1..];
          }
        }
      }
    }
  }

  /** The list comprehension of lab.py:37: `c` without any copy of `l`. */
  function Without(c: Clause, l: Literal): (r: Clause)
    ensures forall x :: x in r <==> x in c && x != l
  {
    if c == [] then []
    else (if c[0] == l then [] else [c[0]]) + Without(c[1..], l)
  }

  /** Reducing keeps the clauses in their original order. */
  lemma {:induction false} ReduceConcat(f1: Formula, f2: Formula, a: Assignment)
    ensures Reduce(f1 + f2, a) == Reduce(f1, a) + Reduce(f2, a)
  {
    if f1 == [] {
      assert f1 + f2 == f2;
    } else {
      assert (f1 + f2)[0] == f1[0];
      assert (f1 + f2)[1..] == f1[1..] + f2;
      ReduceConcat(f1[1..], f2, a);
    }
  }

  lemma {:induction false} StripOne(c: Clause, v: Var, b: bool)
    requires Literal(v, b) !in c
    ensures Strip(c, map[v := b]) == Without(c, Literal(v, !b))
  {
    if c != [] {
      assert c[0] != Literal(v, b);
      StripOne(c[1..], v, b);
    }
  }

  /** Under the single assignment `v := b` a clause is dropped exactly when it
      contains `(v, b)`, and otherwise loses its `(v, not b)` literals: the
      loop body of `update_formula` (lab.py:32-38). */
  lemma ReduceOneClause(c: Clause, v: Var, b: bool)
    ensures Reduce([c], map[v := b]) == if Literal(v, b) in c then [] else [Without(c, Literal(v, !b))]
  {
    var a := map[v := b];
    assert [c][1..] == [];
    if Literal(v, b) in c {
      assert LitTrue(a, Literal(v, b));
    } else {
      assert !ClauseSat(a, c) by {
        forall l | l in c ensures !LitTrue(a, l) {
          assert l != Literal(v, b);
        }
      }
      StripOne(c, v, b);
    }
  }

  /** For an assignment `e` that agrees with `a`, the reduced formula and the
      original one are equally satisfied. */
  lemma ReduceSatisfies(f: Formula, a: Assignment, e: Assignment)
    requires Extends(e, a)
    ensures Satisfies(e, Reduce(f, a)) <==> Satisfies(e, f)
  {
    ReduceMembers(f, a);
    if Satisfies(e, f) {
      forall d | d in Reduce(f, a) ensures ClauseSat(e, d) {
        var c :| c in f && !ClauseSat(a, c) && d == Strip(c, a);
        var l :| l in c && LitTrue(e, l);
        assert !LitTrue(a, l);
        assert l in d;
      }
    }
    if Satisfies(e, Reduce(f, a)) {
      forall c | c in f ensures ClauseSat(e, c) {
        if ClauseSat(a, c) {
          var l :| l in c && LitTrue(a, l);
          assert LitTrue(e, l);
        } else {
          assert Strip(c, a) in Reduce(f, a);
          var l :| l in Strip(c, a) && LitTrue(e, l);
          assert l in c;
        }
      }
    }
  }

  /** No literal on an assigned variable survives, and no literal is invented. */
  lemma ReduceLiterals(f: Formula, a: Assignment)
    ensures Literals(Reduce(f, a)) <= Literals(f)
    ensures forall l :: l in Literals(Reduce(f, a)) ==> l.variable !in a
    ensures forall x :: x in a ==> x !in Vars(Reduce(f, a))
  {
    ReduceMembers(f, a);
    forall l | l in Literals(Reduce(f, a)) ensures l in Literals(f) && l.variable !in a {
      var d :| d in Reduce(f, a) && l in d;
      var c :| c in f && !ClauseSat(a, c) && d == Strip(c, a);
    }
  }

  /** Dropping a satisfied clause makes the formula strictly shorter. */
  lemma {:induction false} ReduceShrinks(f: Formula, a: Assignment, c: Clause)
    requires c in f && ClauseSat(a, c)
    ensures |Reduce(f, a)| < |f|
  {
    if f[0] != c {
      ReduceShrinks(f[1..], a, c);
    }
  }

  lemma {:induction false} StripUntouched(c: Clause, a: Assignment)
    requires forall l :: l in c ==> l.variable !in a
    ensures Strip(c, a) == c
  {
    if c != [] {
      assert c[0] in c;
      StripUntouched(c[1..], a);
      assert c == [c[0]] + c[1..];
    }
  }

  /** An assignment to variables the formula does not mention changes nothing. */
  lemma {:induction false} ReduceUntouched(f: Formula, a: Assignment)
    requires forall x :: x in a ==> x !in Vars(f)
    ensures Reduce(f, a) == f
  {
    if f != [] {
      forall l | l in f[0] ensures l.variable !in a {
        assert l in Literals(f);
        assert l.variable in Vars(f);
      }
      assert !ClauseSat(a, f[0]);
      StripUntouched(f[0], a);
      assert Vars(f[1..]) <= Vars(f) by {
        forall x | x in Vars(f[1..]) ensures x in Vars(f) {
          var l :| l in Literals(f[1..]) && l.variable == x;
          var c :| c in f[1..] && l in c;
          assert c in f;
        }
      }
      ReduceUntouched(f[1..], a);
      assert f == [f[0]] + f[1..];
    }
  }

  lemma {:induction false} StripStrip(c: Clause, a: Assignment, b: Assignment)
    ensures Strip(Strip(c, a), b) == Strip(c, a + b)
  {
    if c != [] {
      StripStrip(c[1..], a, b);
      if c[0].variable in a {
        assert c[0].variable in a + b;
        assert Strip(c, a) == Strip(c[1..], a);
        assert Strip(c, a + b) == Strip(c[1..], a + b);
      } else {
        assert Strip(c, a) == [c[0]] + Strip(c[1..], a);
        assert Strip(c, a)[0] == c[0];
        assert Strip(c, a)[1..] == Strip(c[1..], a);
      }
    }
  }

  /** Applying `a` and then `b` is applying both at once, when they assign
      different variables. */
  lemma {:induction false} ReduceCompose(f: Formula, a: Assignment, b: Assignment)
    requires forall x :: x in a ==> x !in b
    ensures Reduce(Reduce(f, a), b) == Reduce(f, a + b)
  {
    if f != [] {
      var c := f[0];
      ReduceCompose(f[1..], a, b);
      assert ClauseSat(a + b, c) <==> ClauseSat(a, c) || ClauseSat(b, Strip(c, a)) by {
        if ClauseSat(a + b, c) {
          var l :| l in c && LitTrue(a + b, l);
          if l.variable in b {
            assert l in Strip(c, a);
            assert LitTrue(b, l);
          } else {
            assert LitTrue(a, l);
          }
        }
        if ClauseSat(a, c) {
          var l :| l in c && LitTrue(a, l);
          assert LitTrue(a + b, l);
        }
        if ClauseSat(b, Strip(c, a)) {
          var l :| l in Strip(c, a) && LitTrue(b, l);
          assert LitTrue(a + b, l);
        }
      }
      StripStrip(c, a, b);
      if ClauseSat(a, c) {
        assert Reduce(f, a) == Reduce(f[1..], a);
      } else {
        assert Reduce(f, a) == [Strip(c, a)] + Reduce(f[1..], a);
        assert Reduce(f, a)[0] == Strip(c, a);
        assert Reduce(f, a)[1..] == Reduce(f[1..], a);
      }
    }
  }

  /** `update_formula` (lab.py:17-39): a new formula holding, in their original
      order, the clauses without `(v, b)`, each with its `(v, not b)` literals
      deleted; that is, `f` reduced by the single assignment `v := b`. */
  method UpdateFormula(f: Formula, v: Var, b: bool) returns (r: Formula)
    ensures r == Reduce(f, map[v := b])
  {
    r := [];
    for i := 0 to |f|
      invariant r == Reduce(f[..i], map[v := b])
    {
      assert f[..i + 1] == f[..i] + [f[i]];
      ReduceConcat(f[..i], [f[i]], map[v := b]);
      ReduceOneClause(f[i], v, b);
      var clause := f[i];
      if Literal(v, b) in clause {
        continue;
      }
      var newClause := Without(clause, Literal(v, !b));
      r := r + [newClause];
    }
    assert f[..|f|] == f;
  }

  /** The facts about one call of `update_formula` that the rest of the
      solver relies on: no literal on `v` survives, nothing grows, and an
      assignment with `v == b` satisfies both formulas alike. */
  lemma UpdateProperties(f: Formula, v: Var, b: bool, e: Assignment)
    ensures v !in Vars(Reduce(f, map[v := b]))
    ensures Literals(Reduce(f, map[v := b])) <= Literals(f)
    ensures |Reduce(f, map[v := b])| <= |f|
    ensures v in e && e[v] == b ==> (Satisfies(e, Reduce(f, map[v := b])) <==> Satisfies(e, f))
  {
    ReduceLiterals(f, map[v := b]);
    if v in e && e[v] == b {
      ReduceSatisfies(f, map[v := b], e);
    }
  }

  /** `has_empty_clause` (lab.py:42-54). */
  method HasEmptyClause(f: Formula) returns (r: bool)
    ensures r <==> [] in f
  {
    for i := 0 to |f|
      invariant [] !in f[..i]
    {
      if f[i] == [] {
        return true;
      }
      assert f[..i + 1] == f[..i] + [f[i]];
    }
    assert f[..|f|] == f;
    return false;
  }

  /** The two doctests of lab.py:46-49. */
  method HasEmptyClauseExamples() returns (yes: bool, no: bool)
    ensures yes && !no
  {
    yes := HasEmptyClause([[Literal("a", true)], []]);
    no := HasEmptyClause([[Literal("a", true)], [Literal("b", false)]]);
  }
}

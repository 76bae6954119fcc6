/** CNF formulas as the solver sees them: a literal is a variable with the
    value it asserts, a clause is a disjunction of literals, a formula is a
    conjunction of clauses, and an assignment maps variables to values. */
module Cnf {

  type Var = string

  /** The pair `(var, value)` of the source. */
  datatype Literal = Literal(variable: Var, value: bool)

  /** A disjunction; the empty clause cannot be satisfied. */
  type Clause = seq<Literal>

  /** A conjunction; the empty formula is satisfied by every assignment. */
  type Formula = seq<Clause>

  /** A possibly partial assignment; a missing key means "unconstrained". */
  type Assignment = map<Var, bool>

  /** `None` is the source's `None`: a conflict, or no satisfying assignment. */
  datatype Option<T> = None | Some(value: T)

  predicate LitTrue(a: Assignment, l: Literal) {
    l.variable in a && a[l.variable] == l.value
  }

  predicate ClauseSat(a: Assignment, c: Clause) {
    exists l :: l in c && LitTrue(a, l)
  }

  /** Every clause of `f` has a literal `(v, b)` with `a[v] == b`. */
  predicate Satisfies(a: Assignment, f: Formula) {
    forall c :: c in f ==> ClauseSat(a, c)
  }

  ghost predicate Satisfiable(f: Formula) {
    exists a: Assignment :: Satisfies(a, f)
  }

  /** `e` agrees with `a` on every variable `a` assigns. */
  predicate Extends(e: Assignment, a: Assignment) {
    forall x :: x in a ==> x in e && e[x] == a[x]
  }

  /** Every assignment satisfying `f` agrees with `a`: `f` forces `a`. */
  ghost predicate Forces(f: Formula, a: Assignment) {
    forall e :: Satisfies(e, f) ==> Extends(e, a)
  }

  /** Every value `a` gives is asserted by some literal of `f`. */
  ghost predicate Supported(a: Assignment, f: Formula) {
    forall x :: x in a ==> Literal(x, a[x]) in Literals(f)
  }

  ghost function Literals(f: Formula): set<Literal> {
    set c, l | c in f && l in c :: l
  }

  ghost function Vars(f: Formula): set<Var> {
    set l | l in Literals(f) :: l.variable
  }

  /** A clause with no literals makes a formula unsatisfiable. */
  lemma EmptyClauseUnsatisfiable(f: Formula)
    requires [] in f
    ensures !Satisfiable(f)
  {
    forall a: Assignment ensures !Satisfies(a, f) {
      assert !ClauseSat(a, []);
    }
  }

  /** Assigning more variables never falsifies a satisfied formula. */
  lemma ExtendsSatisfies(e: Assignment, a: Assignment, f: Formula)
    requires Extends(e, a) && Satisfies(a, f)
    ensures Satisfies(e, f)
  {
    forall c | c in f ensures ClauseSat(e, c) {
      var l :| l in c && LitTrue(a, l);
      assert LitTrue(e, l);
    }
  }
}

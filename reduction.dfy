/** What the formula of `boolify_scheduling_problem` (lab.py:172-227) means:
    its satisfying assignments are the valid room schedules, read off the
    variables `student_room`. */
module ScheduleReduction {
  import opened Cnf
  import opened Combinatorics
  import opened Scheduling
  import opened EncodingShape
  import Search

  /** A schedule places students in rooms. */
  type Schedule = map<Name, Name>

  /** The students of `ss` the schedule places in `room`, in list order. */
  function Occupants(ss: seq<Name>, sched: Schedule, room: Name): (o: seq<Name>)
    ensures |o| <= |ss|
    ensures forall x :: x in o <==> x in ss && x in sched && sched[x] == room
  {
    if ss == [] then []
    else (if ss[0] in sched && sched[ss[0]] == room then [ss[0]] else []) + Occupants(ss[1..], sched, room)
  }

  /** Every listed student is in a room they like, and no listed room holds
      more students than its capacity. Rooms without a capacity are not
      limited, as in the source. */
  predicate ValidSchedule(p: Problem, sched: Schedule)
    requires HasKeys(p)
  {
    && (forall s :: s in p.students ==> s in sched && sched[s] in p.preferences[s])
    && (forall r :: r in p.rooms ==> |Occupants(p.students, sched, r)| <= p.capacities[r])
  }

  /** Student names without `_`, the assumption of lab.py:185. */
  predicate NoUnderscores(p: Problem) {
    forall s :: s in p.students ==> '_' !in s
  }

  /** The first of `rooms` whose variable the assignment makes true. */
  function FirstTrue(a: Assignment, student: Name, rooms: seq<Name>): (r: Option<Name>)
    ensures r.Some? ==> r.value in rooms && LitTrue(a, Literal(VarName(student, r.value), true))
    ensures r.None? ==> forall k :: 0 <= k < |rooms| ==> !LitTrue(a, Literal(VarName(student, rooms[k]), true))
  {
    if rooms == [] then None
    else if LitTrue(a, Literal(VarName(student, rooms[0]), true)) then Some(rooms[0])
    else FirstTrue(a, student, rooms[1..])
  }

  /** The schedule an assignment describes: each student goes to the first of
      their rooms whose variable is true. */
  function Decode(p: Problem, a: Assignment): (sched: Schedule)
    requires HasKeys(p)
    ensures forall s :: s in sched ==>
              s in p.students && sched[s] in p.preferences[s] && LitTrue(a, Literal(VarName(s, sched[s]), true))
  {
    map s | s in p.students && FirstTrue(a, s, p.preferences[s]).Some? :: FirstTrue(a, s, p.preferences[s]).value
  }

  /** The assignment a schedule describes: over the formula's variables,
      `student_room` is true exactly when the schedule puts that student in
      that room. */
  ghost function Encode(p: Problem, sched: Schedule): Assignment
    requires HasKeys(p)
  {
    map v | v in Vars(Encoding(p)) :: exists s :: s in p.students && s in sched && v == VarName(s, sched[s])
  }

  lemma {:induction false} OccupantsSubseq(ss: seq<Name>, sched: Schedule, room: Name)
    ensures IsSubseq(Occupants(ss, sched, room), ss)
  {
    if ss != [] {
      var o := Occupants(ss, sched, room);
      var rest := Occupants(ss[1..], sched, room);
      OccupantsSubseq(ss[1..], sched, room);
      if ss[0] in sched && sched[ss[0]] == room {
        assert o[0] == ss[0] && o[1..] == rest;
      } else {
        assert o == rest;
      }
    }
  }

  lemma {:induction false} SubseqPrefix<T>(c: seq<T>, s: seq<T>, n: nat)
    requires IsSubseq(c, s) && n <= |c|
    ensures IsSubseq(c[..n], s)
    decreases |s|
  {
    if n > 0 {
      if c[0] == s[0] && IsSubseq(c[1..], s[1..]) {
        SubseqPrefix(c[1..], s[1..], n - 1);
        assert c[..n][1..] == c[1..][..n - 1];
      } else {
        SubseqPrefix(c, s[1..], n);
      }
    }
  }

  /** A sub-sequence of the student list made of occupants of `room` is a
      sub-sequence of the occupants, so it is no longer than they are. */
  lemma {:induction false} SubseqOfOccupants(g: seq<Name>, ss: seq<Name>, sched: Schedule, room: Name)
    requires IsSubseq(g, ss)
    requires forall k :: 0 <= k < |g| ==> g[k] in sched && sched[g[k]] == room
    ensures |g| <= |Occupants(ss, sched, room)|
    decreases |ss|
  {
    if g != [] {
      if g[0] == ss[0] && IsSubseq(g[1..], ss[1..]) {
        SubseqOfOccupants(g[1..], ss[1..], sched, room);
      } else {
        SubseqOfOccupants(g, ss[1..], sched, room);
      }
    }
  }

  /** With no `_` in student names, the variable of a listed student and a
      room is true under `Encode` exactly when the schedule puts that student
      in that room. */
  lemma EncodeValue(p: Problem, sched: Schedule, s: Name, r: Name)
    requires HasKeys(p) && NoUnderscores(p) && s in p.students
    requires VarName(s, r) in Vars(Encoding(p))
    ensures VarName(s, r) in Encode(p, sched)
    ensures Encode(p, sched)[VarName(s, r)] <==> s in sched && sched[s] == r
  {
    var v := VarName(s, r);
    if Encode(p, sched)[v] {
      var s' :| s' in p.students && s' in sched && v == VarName(s', sched[s']);
      VarNameInjective(s', sched[s'], s, r);
    }
  }

  lemma LiteralVar(p: Problem, c: Clause, l: Literal)
    requires HasKeys(p) && c in Encoding(p) && l in c
    ensures l.variable in Vars(Encoding(p))
  {
    assert l in Literals(Encoding(p));
  }

  /** A listed student's literal on a room, in a clause of the formula, is
      true under `Encode` exactly when it agrees with the schedule. */
  lemma EncodeLiteral(p: Problem, sched: Schedule, c: Clause, s: Name, r: Name, b: bool)
    requires HasKeys(p) && NoUnderscores(p) && s in p.students
    requires c in Encoding(p) && Literal(VarName(s, r), b) in c
    ensures LitTrue(Encode(p, sched), Literal(VarName(s, r), b)) <==> (s in sched && sched[s] == r) == b
  {
    LiteralVar(p, c, Literal(VarName(s, r), b));
    EncodeValue(p, sched, s, r);
  }

  /** Completeness: the assignment of a valid schedule satisfies the formula. */
  lemma EncodeSatisfies(p: Problem, sched: Schedule)
    requires WellFormed(p) && NoUnderscores(p) && ValidSchedule(p, sched)
    ensures Satisfies(Encode(p, sched), Encoding(p))
  {
    var a := Encode(p, sched);
    forall c | c in Encoding(p) ensures ClauseSat(a, c) {
      EncodingClauseKinds(p, c);
      if exists s :: s in p.students && c == AtLeastOne(s, p.preferences[s]) {
        var s :| s in p.students && c == AtLeastOne(s, p.preferences[s]);
        AtLeastOneSat(p, sched, s);
      } else if exists s, i, j :: s in p.students && 0 <= i < j < |p.preferences[s]|
                                  && c == PairClause(s, p.preferences[s][i], p.preferences[s][j]) {
        var s, i, j :| s in p.students && 0 <= i < j < |p.preferences[s]|
                       && c == PairClause(s, p.preferences[s][i], p.preferences[s][j]);
        PairSat(p, sched, s, i, j);
      } else {
        var r, g :| r in p.rooms && |g| == p.capacities[r] + 1 && IsSubseq(g, p.students)
                    && c == CapacityClause(r, g);
        CapacitySat(p, sched, r, g);
      }
    }
  }

  lemma AtLeastOneSat(p: Problem, sched: Schedule, s: Name)
    requires WellFormed(p) && NoUnderscores(p) && ValidSchedule(p, sched) && s in p.students
    ensures ClauseSat(Encode(p, sched), AtLeastOne(s, p.preferences[s]))
  {
    var rooms := p.preferences[s];
    var c := AtLeastOne(s, rooms);
    AtLeastOneInEncoding(p, s);
    AtLeastOneShape(s, rooms);
    var k :| 0 <= k < |rooms| && rooms[k] == sched[s];
    assert c[k] in c;
    EncodeLiteral(p, sched, c, s, rooms[k], true);
  }

  lemma PairSat(p: Problem, sched: Schedule, s: Name, i: nat, j: nat)
    requires WellFormed(p) && NoUnderscores(p) && s in p.students && i < j < |p.preferences[s]|
    ensures ClauseSat(Encode(p, sched), PairClause(s, p.preferences[s][i], p.preferences[s][j]))
  {
    var rooms := p.preferences[s];
    var c := PairClause(s, rooms[i], rooms[j]);
    PairInEncoding(p, s, i, j);
    assert rooms[i] != rooms[j];
    assert c[0] in c && c[1] in c;
    EncodeLiteral(p, sched, c, s, rooms[i], false);
    EncodeLiteral(p, sched, c, s, rooms[j], false);
  }

  lemma CapacitySat(p: Problem, sched: Schedule, r: Name, g: seq<Name>)
    requires WellFormed(p) && NoUnderscores(p) && ValidSchedule(p, sched)
    requires r in p.rooms && |g| == p.capacities[r] + 1 && IsSubseq(g, p.students)
    ensures ClauseSat(Encode(p, sched), CapacityClause(r, g))
  {
    var c := CapacityClause(r, g);
    if forall k :: 0 <= k < |g| ==> g[k] in sched && sched[g[k]] == r {
      SubseqOfOccupants(g, p.students, sched, r);
      assert false;
    }
    var k :| 0 <= k < |g| && !(g[k] in sched && sched[g[k]] == r);
    CapacityInEncoding(p, r, g);
    CapacityClauseShape(r, g);
    CombosMembers(p.students, |g|, g);
    CombosElements(p.students, |g|, g);
    assert c[k] in c;
    EncodeLiteral(p, sched, c, g[k], r, false);
  }

  /** Soundness: the schedule read off a satisfying assignment is valid. */
  lemma DecodeValid(p: Problem, a: Assignment)
    requires HasKeys(p) && Satisfies(a, Encoding(p))
    ensures ValidSchedule(p, Decode(p, a))
  {
    var sched := Decode(p, a);
    forall s | s in p.students ensures s in sched && sched[s] in p.preferences[s] {
      var rooms := p.preferences[s];
      var c := AtLeastOne(s, rooms);
      AtLeastOneInEncoding(p, s);
      AtLeastOneShape(s, rooms);
      var l :| l in c && LitTrue(a, l);
      var k :| 0 <= k < |c| && c[k] == l;
      assert FirstTrue(a, s, rooms).Some?;
    }
    forall r | r in p.rooms ensures |Occupants(p.students, sched, r)| <= p.capacities[r] {
      OccupancyBound(p, a, r);
    }
  }

  lemma OccupancyBound(p: Problem, a: Assignment, r: Name)
    requires HasKeys(p) && Satisfies(a, Encoding(p)) && r in p.rooms
    ensures |Occupants(p.students, Decode(p, a), r)| <= p.capacities[r]
  {
    var sched := Decode(p, a);
    var o := Occupants(p.students, sched, r);
    if |o| > p.capacities[r] {
      var g := o[..p.capacities[r] + 1];
      OccupantsSubseq(p.students, sched, r);
      SubseqPrefix(o, p.students, p.capacities[r] + 1);
      CapacityClauseShape(r, g);
      var c := CapacityClause(r, g);
      forall l | l in c ensures !LitTrue(a, l) {
        var k :| 0 <= k < |c| && c[k] == l;
        assert g[k] in o;
      }
      CapacityInEncoding(p, r, g);
      assert false;
    }
  }

  /** The reduction is correct: the formula has a satisfying assignment
      exactly when the problem has a valid schedule. */
  lemma ReductionCorrect(p: Problem)
    requires WellFormed(p) && NoUnderscores(p)
    ensures Satisfiable(Encoding(p)) <==> exists sched :: ValidSchedule(p, sched)
  {
    if Satisfiable(Encoding(p)) {
      var a :| Satisfies(a, Encoding(p));
      DecodeValid(p, a);
    }
    if exists sched :: ValidSchedule(p, sched) {
      var sched :| ValidSchedule(p, sched);
      EncodeSatisfies(p, sched);
    }
  }

  /** A satisfying assignment never puts a student in two of their rooms. */
  lemma AtMostOneRoom(p: Problem, a: Assignment, s: Name, i: nat, j: nat)
    requires HasKeys(p) && Satisfies(a, Encoding(p))
    requires s in p.students && i < j < |p.preferences[s]|
    ensures !(LitTrue(a, Literal(VarName(s, p.preferences[s][i]), true))
              && LitTrue(a, Literal(VarName(s, p.preferences[s][j]), true)))
  {
    var c := PairClause(s, p.preferences[s][i], p.preferences[s][j]);
    PairInEncoding(p, s, i, j);
    assert ClauseSat(a, c);
    var l :| l in c && LitTrue(a, l);
    assert l == c[0] || l == c[1];
  }

  /** The only positive literals of the formula are those of the "at least
      one" clauses: each names a listed student and one of that student's
      rooms. */
  lemma PositiveLiteralSource(p: Problem, c: Clause, l: Literal) returns (s: Name, k: nat)
    requires HasKeys(p) && c in Encoding(p) && l in c && l.value
    ensures s in p.students && k < |p.preferences[s]|
    ensures l == Literal(VarName(s, p.preferences[s][k]), true)
  {
    if c in StudentPart(p, p.students) {
      var n := StudentPartSource(p, p.students, c);
      s := p.students[n];
      var rooms := p.preferences[s];
      if c == AtLeastOne(s, rooms) {
        AtLeastOneShape(s, rooms);
        k :| 0 <= k < |c| && c[k] == l;
      } else {
        var i, j := PairsSource(s, rooms, |rooms|, c);
        assert false;
      }
    } else {
      var m := RoomPartSource(Groups(p), p.rooms, c);
      var r := p.rooms[m];
      var n := RoomClausesSource(r, Groups(p)[r], c);
      CapacityClauseShape(r, Groups(p)[r][n]);
      assert false;
    }
  }

  /** A value the assignment gives is asserted by a literal of the formula
      (what `Supported` says of the solver's result), so a true variable of a
      listed student names one of that student's rooms. */
  lemma TrueOnlyPreferred(p: Problem, a: Assignment, s: Name, r: Name)
    requires HasKeys(p) && NoUnderscores(p) && s in p.students
    requires Supported(a, Encoding(p))
    requires LitTrue(a, Literal(VarName(s, r), true))
    ensures r in p.preferences[s]
  {
    var l := Literal(VarName(s, r), true);
    assert l in Literals(Encoding(p));
    var c :| c in Encoding(p) && l in c;
    var s', k := PositiveLiteralSource(p, c, l);
    VarNameInjective(s', p.preferences[s'][k], s, r);
  }

  /** Under the solver's result, a true variable `s_r` is exactly the
      placement the decoded schedule makes: the student goes to room `r`. */
  lemma TrueMeansDecoded(p: Problem, a: Assignment, s: Name, r: Name)
    requires HasKeys(p) && NoUnderscores(p) && s in p.students
    requires Satisfies(a, Encoding(p)) && Supported(a, Encoding(p))
    requires LitTrue(a, Literal(VarName(s, r), true))
    ensures s in Decode(p, a) && Decode(p, a)[s] == r
  {
    var rooms := p.preferences[s];
    TrueOnlyPreferred(p, a, s, r);
    var j :| 0 <= j < |rooms| && rooms[j] == r;
    var first := FirstTrue(a, s, rooms);
    if first.None? {
      assert false;
    }
    var i :| 0 <= i < |rooms| && rooms[i] == first.value;
    if i < j {
      AtMostOneRoom(p, a, s, i, j);
    } else if j < i {
      AtMostOneRoom(p, a, s, j, i);
    }
  }

  /** The listed students whose variable for `room` is true, in list order. */
  function TrueIn(ss: seq<Name>, a: Assignment, room: Name): (t: seq<Name>)
    ensures |t| <= |ss|
    ensures forall x :: x in t <==> x in ss && LitTrue(a, Literal(VarName(x, room), true))
  {
    if ss == [] then []
    else (if LitTrue(a, Literal(VarName(ss[0], room), true)) then [ss[0]] else []) + TrueIn(ss[1..], a, room)
  }

  /** Under the solver's result, the students with a true variable for a
      room are the room's occupants in the decoded schedule. */
  lemma {:induction false} TrueInDecoded(p: Problem, a: Assignment, ss: seq<Name>, room: Name)
    requires HasKeys(p) && NoUnderscores(p)
    requires Satisfies(a, Encoding(p)) && Supported(a, Encoding(p))
    requires forall s :: s in ss ==> s in p.students
    ensures TrueIn(ss, a, room) == Occupants(ss, Decode(p, a), room)
  {
    if ss != [] {
      var s := ss[0];
      var sched := Decode(p, a);
      if LitTrue(a, Literal(VarName(s, room), true)) {
        TrueMeansDecoded(p, a, s, room);
      }
      assert forall x :: x in ss[1..] ==> x in ss;
      TrueInDecoded(p, a, ss[1..], room);
    }
  }

  /** What the solver returns on the formula respects the problem: every
      true variable `s_r` of a listed student names a room `s` likes, and no
      listed room has more students with a true variable than its capacity.
      `Search.SatisfyingAssignment` ensures both hypotheses of its result. */
  lemma SolverAssignmentRespectsProblem(p: Problem, a: Assignment)
    requires HasKeys(p) && NoUnderscores(p)
    requires Satisfies(a, Encoding(p)) && Supported(a, Encoding(p))
    ensures forall s, r :: s in p.students && LitTrue(a, Literal(VarName(s, r), true)) ==> r in p.preferences[s]
    ensures forall r :: r in p.rooms ==> |TrueIn(p.students, a, r)| <= p.capacities[r]
  {
    forall s, r | s in p.students && LitTrue(a, Literal(VarName(s, r), true))
      ensures r in p.preferences[s]
    {
      TrueOnlyPreferred(p, a, s, r);
    }
    forall r | r in p.rooms ensures |TrueIn(p.students, a, r)| <= p.capacities[r] {
      TrueInDecoded(p, a, p.students, r);
      OccupancyBound(p, a, r);
    }
  }

  /** A listed student with no acceptable room contributes the empty clause,
      so the formula has no satisfying assignment. */
  lemma EmptyPreferencesUnsatisfiable(p: Problem, s: Name)
    requires HasKeys(p) && s in p.students && p.preferences[s] == []
    ensures [] in Encoding(p)
    ensures !Satisfiable(Encoding(p))
  {
    AtLeastOneInEncoding(p, s);
    assert AtLeastOne(s, p.preferences[s]) == [];
    EmptyClauseUnsatisfiable(Encoding(p));
  }

  /** Building the formula of a problem in which a student likes no room
      and handing it to the solver gives "no solution". */
  method EmptyPreferencesNoSolution(p: Problem, s: Name) returns (r: Option<Assignment>)
    requires HasKeys(p) && s in p.students && p.preferences[s] == []
    ensures r.None?
  {
    var formula := BoolifySchedulingProblem(p);
    r := Search.SatisfyingAssignment(formula);
    EmptyPreferencesUnsatisfiable(p, s);
  }
}

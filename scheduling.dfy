/** `boolify_scheduling_problem` (lab.py:172-227): a quiz-room scheduling
    problem as a CNF formula over the variables `student_room`. */
module Scheduling {
  import opened Cnf
  import opened Combinatorics

  type Name = string

  /** The two dictionaries of the source. Python dictionaries and sets are
      given here as sequences in their iteration order: `students` is the key
      order of the preference dictionary, `preferences[s]` the iteration order
      of student `s`'s set of rooms, and `rooms` the key order of the capacity
      dictionary. */
  datatype Problem = Problem(
    students: seq<Name>,
    preferences: map<Name, seq<Name>>,
    rooms: seq<Name>,
    capacities: map<Name, nat>)

  predicate NoDuplicates<T(==)>(s: seq<T>) {
    forall i, j :: 0 <= i < j < |s| ==> s[i] != s[j]
  }

  /** Every listed student has a set of rooms and every listed room a
      capacity: the sequences are key orders of the two dictionaries. */
  predicate HasKeys(p: Problem) {
    && (forall s :: s in p.students ==> s in p.preferences)
    && (forall r :: r in p.rooms ==> r in p.capacities)
  }

  /** What it means for the sequences to stand for the two dictionaries:
      dictionary keys and set elements are distinct, and the key sequences
      list exactly the keys. */
  predicate WellFormed(p: Problem) {
    && HasKeys(p)
    && NoDuplicates(p.students)
    && (forall s :: s in p.preferences ==> s in p.students)
    && (forall s :: s in p.students ==> NoDuplicates(p.preferences[s]))
    && NoDuplicates(p.rooms)
    && (forall r :: r in p.capacities ==> r in p.rooms)
  }

  /** The variable `student + "_" + room` (lab.py:206, 211, 224): true when
      the student is placed in the room. */
  function VarName(student: Name, room: Name): (v: Var)
    ensures |v| == |student| + 1 + |room| && v[|student|] == '_'
  {
    student + "_" + room
  }

  /** With no `_` in student names (lab.py:185) the naming is injective: the
      first `_` of a variable ends the student's name. Room names may contain
      `_` without harm. */
  lemma VarNameInjective(s1: Name, r1: Name, s2: Name, r2: Name)
    requires '_' !in s1 && '_' !in s2
    requires VarName(s1, r1) == VarName(s2, r2)
    ensures s1 == s2 && r1 == r2
  {
    var v := VarName(s1, r1);
    assert s1 == v[..|s1|] == s2;
    assert r1 == v[|s1| + 1..] == r2;
  }

  /** "Not both rooms": the clause of lab.py:205-207. */
  function PairClause(student: Name, room1: Name, room2: Name): Clause {
    [Literal(VarName(student, room1), false), Literal(VarName(student, room2), false)]
  }

  /** The clauses pairing `rooms[a]` with `rooms[a + 1]`, ..., `rooms[b - 1]`,
      in order: the inner loop of lab.py:202-207 up to `j == b`. */
  function Row(student: Name, rooms: seq<Name>, a: nat, b: nat): seq<Clause>
    requires a < |rooms| && b <= |rooms|
    decreases b
  {
    if b <= a + 1 then [] else Row(student, rooms, a, b - 1) + [PairClause(student, rooms[a], rooms[b - 1])]
  }

  /** The pair clauses of lab.py:201-207 for the first `a` values of `i`. */
  function PairsBefore(student: Name, rooms: seq<Name>, a: nat): seq<Clause>
    requires a <= |rooms|
  {
    if a == 0 then [] else PairsBefore(student, rooms, a - 1) + Row(student, rooms, a - 1, |rooms|)
  }

  /** "Some room the student likes": the clause of lab.py:209-212. */
  function AtLeastOne(student: Name, rooms: seq<Name>): Clause {
    if rooms == [] then []
    else AtLeastOne(student, rooms[..|rooms| - 1]) + [Literal(VarName(student, rooms[|rooms| - 1]), true)]
  }

  /** The clauses one student contributes, in the source's order. */
  function StudentClauses(student: Name, rooms: seq<Name>): seq<Clause> {
    PairsBefore(student, rooms, |rooms|) + [AtLeastOne(student, rooms)]
  }

  /** The student part of the formula (lab.py:199-212) for the students `ss`. */
  function StudentPart(p: Problem, ss: seq<Name>): seq<Clause>
    requires forall s :: s in ss ==> s in p.preferences
  {
    if ss == [] then []
    else StudentPart(p, ss[..|ss| - 1]) + StudentClauses(ss[|ss| - 1], p.preferences[ss[|ss| - 1]])
  }

  /** "Not all of these students in this room": the clause of lab.py:221-225. */
  function CapacityClause(room: Name, group: seq<Name>): Clause {
    if group == [] then []
    else CapacityClause(room, group[..|group| - 1]) + [Literal(VarName(group[|group| - 1], room), false)]
  }

  function RoomClauses(room: Name, groups: seq<seq<Name>>): seq<Clause> {
    if groups == [] then []
    else RoomClauses(room, groups[..|groups| - 1]) + [CapacityClause(room, groups[|groups| - 1])]
  }

  /** The groups of `capacity + 1` students the source enumerates for each
      room (lab.py:219-220), in the order `combinations` gives them. */
  function Groups(p: Problem): (g: map<Name, seq<seq<Name>>>)
    ensures g.Keys == p.capacities.Keys
  {
    map r | r in p.capacities :: Combos(p.students, p.capacities[r] + 1)
  }

  /** The capacity part of the formula (lab.py:217-225) for the rooms `rs`:
      the clauses of every group of each room, room by room. */
  function RoomPart(groups: map<Name, seq<seq<Name>>>, rs: seq<Name>): seq<Clause>
    requires forall r :: r in rs ==> r in groups
  {
    if rs == [] then []
    else RoomPart(groups, rs[..|rs| - 1]) + RoomClauses(rs[|rs| - 1], groups[rs[|rs| - 1]])
  }

  /** The whole formula, in the order the source appends its clauses. */
  function Encoding(p: Problem): Formula
    requires HasKeys(p)
  {
    StudentPart(p, p.students) + RoomPart(Groups(p), p.rooms)
  }

  lemma PairsStep(student: Name, rooms: seq<Name>, a: nat, b: nat, done: seq<Clause>, f: seq<Clause>)
    requires a < |rooms| && a < b < |rooms|
    requires f == done + Row(student, rooms, a, b)
    ensures f + [PairClause(student, rooms[a], rooms[b])] == done + Row(student, rooms, a, b + 1)
  {
  }

  lemma AtLeastOneStep(student: Name, rooms: seq<Name>, k: nat)
    requires k < |rooms|
    ensures AtLeastOne(student, rooms[..k + 1]) == AtLeastOne(student, rooms[..k]) + [Literal(VarName(student, rooms[k]), true)]
  {
    assert rooms[..k + 1][..k] == rooms[..k];
  }

  lemma CapacityStep(room: Name, group: seq<Name>, m: nat)
    requires m < |group|
    ensures CapacityClause(room, group[..m + 1]) == CapacityClause(room, group[..m]) + [Literal(VarName(group[m], room), false)]
  {
    assert group[..m + 1][..m] == group[..m];
  }

  lemma PairsRowDone(student: Name, rooms: seq<Name>, a: nat, base: seq<Clause>, f: seq<Clause>)
    requires a < |rooms|
    requires f == base + PairsBefore(student, rooms, a) + Row(student, rooms, a, |rooms|)
    ensures f == base + PairsBefore(student, rooms, a + 1)
  {
  }

  lemma StudentStep(p: Problem, i: nat, f: seq<Clause>)
    requires HasKeys(p) && i < |p.students|
    requires f == StudentPart(p, p.students[..i]) + StudentClauses(p.students[i], p.preferences[p.students[i]])
    ensures f == StudentPart(p, p.students[..i + 1])
  {
    var ss := p.students[..i + 1];
    assert ss[..|ss| - 1] == p.students[..i];
  }

  lemma RoomStep(room: Name, done: seq<Clause>, f: seq<Clause>, combos: seq<seq<Name>>, k: nat, clause: Clause)
    requires k < |combos|
    requires f == done + RoomClauses(room, combos[..k])
    requires clause == CapacityClause(room, combos[k])
    ensures f + [clause] == done + RoomClauses(room, combos[..k + 1])
  {
    assert combos[..k + 1][..k] == combos[..k];
  }

  lemma RoomPartStep(groups: map<Name, seq<seq<Name>>>, rooms: seq<Name>, i: nat)
    requires i < |rooms| && forall r :: r in rooms ==> r in groups
    ensures RoomPart(groups, rooms[..i + 1]) == RoomPart(groups, rooms[..i]) + RoomClauses(rooms[i], groups[rooms[i]])
  {
    var rs := rooms[..i + 1];
    assert rs[..|rs| - 1] == rooms[..i];
  }

  lemma GroupsLookup(p: Problem, room: Name, combos: seq<seq<Name>>)
    requires room in p.capacities && combos == Combos(p.students, p.capacities[room] + 1)
    ensures combos == Groups(p)[room]
  {
  }

  lemma RoomDone(groups: map<Name, seq<seq<Name>>>, rooms: seq<Name>, i: nat, studentPart: seq<Clause>, done: seq<Clause>, f: seq<Clause>)
    requires i < |rooms| && forall r :: r in rooms ==> r in groups
    requires done == studentPart + RoomPart(groups, rooms[..i])
    requires f == done + RoomClauses(rooms[i], groups[rooms[i]])
    ensures f == studentPart + RoomPart(groups, rooms[..i + 1])
  {
    RoomPartStep(groups, rooms, i);
  }

  /** The body of the student loop of lab.py:199-212: append the clauses
      "not both" for every pair of the student's rooms, then "one of them". */
  method AppendStudentClauses(formula: Formula, student: Name, rooms: seq<Name>) returns (r: Formula)
    ensures r == formula + StudentClauses(student, rooms)
  {
    r := formula;
    for a := 0 to |rooms|
      invariant r == formula + PairsBefore(student, rooms, a)
    {
      ghost var done := r;
      for b := a + 1 to |rooms|
        invariant r == done + Row(student, rooms, a, b)
      {
        PairsStep(student, rooms, a, b, done, r);
        r := r + [[Literal(VarName(student, rooms[a]), false), Literal(VarName(student, rooms[b]), false)]];
      }
      PairsRowDone(student, rooms, a, formula, r);
    }
    var clause: Clause := [];
    for k := 0 to |rooms|
      invariant clause == AtLeastOne(student, rooms[..k])
    {
      AtLeastOneStep(student, rooms, k);
      clause := clause + [Literal(VarName(student, rooms[k]), true)];
    }
    assert rooms[..|rooms|] == rooms;
    r := r + [clause];
  }

  /** The body of the room loop of lab.py:217-225: one clause "not all of
      them here" per group of students. */
  method AppendCapacityClauses(formula: Formula, room: Name, groups: seq<seq<Name>>) returns (r: Formula)
    ensures r == formula + RoomClauses(room, groups)
  {
    r := formula;
    for k := 0 to |groups|
      invariant r == formula + RoomClauses(room, groups[..k])
    {
      var combo := groups[k];
      var clause: Clause := [];
      for m := 0 to |combo|
        invariant clause == CapacityClause(room, combo[..m])
      {
        CapacityStep(room, combo, m);
        clause := clause + [Literal(VarName(combo[m], room), false)];
      }
      assert combo[..|combo|] == combo;
      RoomStep(room, formula, r, groups, k, clause);
      r := r + [clause];
    }
    assert groups[..|groups|] == groups;
  }

  /** `boolify_scheduling_problem` (lab.py:172-227): the at-most-one and
      at-least-one clauses of every student, then the capacity clauses of
      every room. */
  method BoolifySchedulingProblem(p: Problem) returns (formula: Formula)
    requires HasKeys(p)
    ensures formula == Encoding(p)
  {
    formula := [];
    for i := 0 to |p.students|
      invariant formula == StudentPart(p, p.students[..i])
    {
      var student := p.students[i];
      formula := AppendStudentClauses(formula, student, p.preferences[student]);
      StudentStep(p, i, formula);
    }
    assert p.students[..|p.students|] == p.students;
    ghost var studentPart := formula;
    assert formula == studentPart + RoomPart(Groups(p), p.rooms[..0]);
    for i := 0 to |p.rooms|
      invariant formula == studentPart + RoomPart(Groups(p), p.rooms[..i])
    {
      var room := p.rooms[i];
      var capacity := p.capacities[room];
      var students := p.students;
      var studentCombos := Combinations(students, capacity + 1);
      ghost var done := formula;
      formula := AppendCapacityClauses(formula, room, studentCombos);
      GroupsLookup(p, room, studentCombos);
      RoomDone(Groups(p), p.rooms, i, studentPart, done, formula);
    }
    assert p.rooms[..|p.rooms|] == p.rooms;
  }
}

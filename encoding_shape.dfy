/** What `boolify_scheduling_problem` (lab.py:172-227) emits, clause by
    clause: the literals of each kind of clause, and the clauses of the
    formula as a set. */
module EncodingShape {
  import opened Cnf
  import opened Combinatorics
  import opened Scheduling

  /** The "at least one" clause has one positive literal per room the
      student likes, in the order of `rooms`. */
  lemma {:induction false} AtLeastOneShape(student: Name, rooms: seq<Name>)
    ensures |AtLeastOne(student, rooms)| == |rooms|
    ensures forall k :: 0 <= k < |rooms| ==> AtLeastOne(student, rooms)[k] == Literal(VarName(student, rooms[k]), true)
  {
    if rooms != [] {
      var init := rooms[..|rooms| - 1];
      AtLeastOneShape(student, init);
      forall k | 0 <= k < |rooms|
        ensures AtLeastOne(student, rooms)[k] == Literal(VarName(student, rooms[k]), true)
      {
        if k < |init| {
          assert rooms[k] == init[k];
        }
      }
    }
  }

  /** A capacity clause has one negative literal per student of the group,
      in the order of the group. */
  lemma {:induction false} CapacityClauseShape(room: Name, group: seq<Name>)
    ensures |CapacityClause(room, group)| == |group|
    ensures forall k :: 0 <= k < |group| ==> CapacityClause(room, group)[k] == Literal(VarName(group[k], room), false)
  {
    if group != [] {
      var init := group[..|group| - 1];
      CapacityClauseShape(room, init);
      forall k | 0 <= k < |group|
        ensures CapacityClause(room, group)[k] == Literal(VarName(group[k], room), false)
      {
        if k < |init| {
          assert group[k] == init[k];
        }
      }
    }
  }

  lemma {:induction false} RowContains(student: Name, rooms: seq<Name>, a: nat, b: nat, j: nat)
    requires a < j < b <= |rooms|
    ensures PairClause(student, rooms[a], rooms[j]) in Row(student, rooms, a, b)
    decreases b
  {
    if j < b - 1 {
      RowContains(student, rooms, a, b - 1, j);
    }
  }

  lemma {:induction false} RowSource(student: Name, rooms: seq<Name>, a: nat, b: nat, c: Clause) returns (j: nat)
    requires a < |rooms| && b <= |rooms| && c in Row(student, rooms, a, b)
    ensures a < j < b && c == PairClause(student, rooms[a], rooms[j])
    decreases b
  {
    var prev := Row(student, rooms, a, b - 1);
    if c in prev {
      j := RowSource(student, rooms, a, b - 1, c);
    } else {
      j := b - 1;
    }
  }

  lemma {:induction false} PairsContains(student: Name, rooms: seq<Name>, a: nat, i: nat, j: nat)
    requires i < a <= |rooms| && i < j < |rooms|
    ensures PairClause(student, rooms[i], rooms[j]) in PairsBefore(student, rooms, a)
  {
    if i < a - 1 {
      PairsContains(student, rooms, a - 1, i, j);
    } else {
      RowContains(student, rooms, i, |rooms|, j);
    }
  }

  lemma {:induction false} PairsSource(student: Name, rooms: seq<Name>, a: nat, c: Clause) returns (i: nat, j: nat)
    requires a <= |rooms| && c in PairsBefore(student, rooms, a)
    ensures i < a && i < j < |rooms| && c == PairClause(student, rooms[i], rooms[j])
  {
    var prev := PairsBefore(student, rooms, a - 1);
    if c in prev {
      i, j := PairsSource(student, rooms, a - 1, c);
    } else {
      i := a - 1;
      j := RowSource(student, rooms, a - 1, |rooms|, c);
    }
  }

  lemma {:induction false} StudentPartContains(p: Problem, ss: seq<Name>, k: nat, c: Clause)
    requires forall s :: s in ss ==> s in p.preferences
    requires k < |ss| && c in StudentClauses(ss[k], p.preferences[ss[k]])
    ensures c in StudentPart(p, ss)
  {
    var init := ss[..|ss| - 1];
    if k < |init| {
      assert init[k] == ss[k];
      assert forall s :: s in init ==> s in ss;
      StudentPartContains(p, init, k, c);
    }
  }

  lemma {:induction false} StudentPartSource(p: Problem, ss: seq<Name>, c: Clause) returns (k: nat)
    requires forall s :: s in ss ==> s in p.preferences
    requires c in StudentPart(p, ss)
    ensures k < |ss| && c in StudentClauses(ss[k], p.preferences[ss[k]])
  {
    var init := ss[..|ss| - 1];
    assert forall s :: s in init ==> s in ss;
    if c in StudentPart(p, init) {
      k := StudentPartSource(p, init, c);
      assert init[k] == ss[k];
    } else {
      k := |ss| - 1;
    }
  }

  lemma {:induction false} RoomClausesContains(room: Name, groups: seq<seq<Name>>, k: nat)
    requires k < |groups|
    ensures CapacityClause(room, groups[k]) in RoomClauses(room, groups)
  {
    var init := groups[..|groups| - 1];
    if k < |init| {
      assert init[k] == groups[k];
      RoomClausesContains(room, init, k);
    }
  }

  lemma {:induction false} RoomClausesSource(room: Name, groups: seq<seq<Name>>, c: Clause) returns (k: nat)
    requires c in RoomClauses(room, groups)
    ensures k < |groups| && c == CapacityClause(room, groups[k])
  {
    var init := groups[..|groups| - 1];
    if c in RoomClauses(room, init) {
      k := RoomClausesSource(room, init, c);
      assert init[k] == groups[k];
    } else {
      k := |groups| - 1;
    }
  }

  lemma {:induction false} RoomPartContains(groups: map<Name, seq<seq<Name>>>, rs: seq<Name>, k: nat, c: Clause)
    requires forall r :: r in rs ==> r in groups
    requires k < |rs| && c in RoomClauses(rs[k], groups[rs[k]])
    ensures c in RoomPart(groups, rs)
  {
    var init := rs[..|rs| - 1];
    if k < |init| {
      assert init[k] == rs[k];
      assert forall r :: r in init ==> r in rs;
      RoomPartContains(groups, init, k, c);
    }
  }

  lemma {:induction false} RoomPartSource(groups: map<Name, seq<seq<Name>>>, rs: seq<Name>, c: Clause) returns (k: nat)
    requires forall r :: r in rs ==> r in groups
    requires c in RoomPart(groups, rs)
    ensures k < |rs| && c in RoomClauses(rs[k], groups[rs[k]])
  {
    var init := rs[..|rs| - 1];
    assert forall r :: r in init ==> r in rs;
    if c in RoomPart(groups, init) {
      k := RoomPartSource(groups, init, c);
      assert init[k] == rs[k];
    } else {
      k := |rs| - 1;
    }
  }

  /** Each listed student contributes the clause "in one of my rooms". */
  lemma AtLeastOneInEncoding(p: Problem, s: Name)
    requires HasKeys(p) && s in p.students
    ensures AtLeastOne(s, p.preferences[s]) in Encoding(p)
  {
    var k :| 0 <= k < |p.students| && p.students[k] == s;
    StudentPartContains(p, p.students, k, AtLeastOne(s, p.preferences[s]));
  }

  /** Each listed student contributes "not both" for every pair of positions
      `i < j` in the student's rooms. */
  lemma PairInEncoding(p: Problem, s: Name, i: nat, j: nat)
    requires HasKeys(p) && s in p.students && i < j < |p.preferences[s]|
    ensures PairClause(s, p.preferences[s][i], p.preferences[s][j]) in Encoding(p)
  {
    var k :| 0 <= k < |p.students| && p.students[k] == s;
    PairsContains(s, p.preferences[s], |p.preferences[s]|, i, j);
    StudentPartContains(p, p.students, k, PairClause(s, p.preferences[s][i], p.preferences[s][j]));
  }

  /** Each listed room contributes "not all of them here" for every group of
      `capacity + 1` students, taken in list order. */
  lemma CapacityInEncoding(p: Problem, r: Name, g: seq<Name>)
    requires HasKeys(p) && r in p.rooms
    requires |g| == p.capacities[r] + 1 && IsSubseq(g, p.students)
    ensures CapacityClause(r, g) in Encoding(p)
  {
    var k :| 0 <= k < |p.rooms| && p.rooms[k] == r;
    var groups := Groups(p);
    GroupMember(p, r, g);
    var m :| 0 <= m < |groups[r]| && groups[r][m] == g;
    RoomClausesContains(r, groups[r], m);
    RoomPartContains(groups, p.rooms, k, CapacityClause(r, g));
  }

  lemma GroupMember(p: Problem, r: Name, g: seq<Name>)
    requires r in p.capacities && |g| == p.capacities[r] + 1 && IsSubseq(g, p.students)
    ensures g in Groups(p)[r]
  {
    CombosMembers(p.students, p.capacities[r] + 1, g);
  }

  /** Nothing else is emitted: every clause of the formula is of one of the
      three kinds above. */
  lemma EncodingClauseKinds(p: Problem, c: Clause)
    requires HasKeys(p) && c in Encoding(p)
    ensures || (exists s :: s in p.students && c == AtLeastOne(s, p.preferences[s]))
            || (exists s, i, j :: s in p.students && 0 <= i < j < |p.preferences[s]|
                                && c == PairClause(s, p.preferences[s][i], p.preferences[s][j]))
            || (exists r, g :: r in p.rooms && |g| == p.capacities[r] + 1 && IsSubseq(g, p.students)
                             && c == CapacityClause(r, g))
  {
    if c in StudentPart(p, p.students) {
      var k := StudentPartSource(p, p.students, c);
      var s := p.students[k];
      if c != AtLeastOne(s, p.preferences[s]) {
        var i, j := PairsSource(s, p.preferences[s], |p.preferences[s]|, c);
        assert s in p.students && 0 <= i < j < |p.preferences[s]|;
      }
    } else {
      var k := RoomPartSource(Groups(p), p.rooms, c);
      var r := p.rooms[k];
      var combos := Groups(p)[r];
      var m := RoomClausesSource(r, combos, c);
      CombosMembers(p.students, p.capacities[r] + 1, combos[m]);
      assert r in p.rooms && |combos[m]| == p.capacities[r] + 1 && IsSubseq(combos[m], p.students);
    }
  }

  /** Every capacity clause of room `r` has exactly `capacity + 1` literals,
      all negative. */
  lemma CapacityClauseLiterals(p: Problem, r: Name, g: seq<Name>)
    requires r in p.capacities && IsSubseq(g, p.students) && |g| == p.capacities[r] + 1
    ensures |CapacityClause(r, g)| == p.capacities[r] + 1
    ensures forall l :: l in CapacityClause(r, g) ==> !l.value
  {
    CapacityClauseShape(r, g);
  }
}

# A verified model of the lab's SAT solver and room-scheduling reduction

`lab.py` is a small DPLL SAT solver plus a reduction from quiz-room
scheduling to SAT. A formula is in conjunctive normal form: a list of
clauses. Each clause is a list of literals `(variable, value)`.

The solver has three layers:

* `update_formula` simplifies a formula under one assignment.
* `simplify_unit_clauses` performs unit propagation.
* `satisfying_assignment` is the recursive search that branches on the first
  clause.

Around it are `combinations`, which enumerates the n-element sub-lists of a
list, and `boolify_scheduling_problem`. That function turns student
preferences and room capacities into a formula over the variables
`student_room`.

The model has one Dafny module per concern:

* `Cnf` (`cnf.dfy`): literals, clauses, formulas, partial assignments
  (`map<string, bool>`), and what it means to satisfy a formula. It also
  defines `Forces` (every satisfying assignment agrees with `a`) and
  `Supported` (every value of `a` is a literal of the formula).
* `FormulaUpdate` (`update.dfy`): `Reduce(f, a)`, the formula under a partial
  assignment. `update_formula(f, v, b)` is proved equal to
  `Reduce(f, map[v := b])`. Every later property goes through `Reduce`.
  This module also holds `has_empty_clause`.
* `Propagation` (`propagation.dfy`): `simplify_unit_clauses`, as a loop
  method. Its invariant is that the working formula is the input reduced by
  the values assigned so far, and that the input forces those values.
* `Search` (`search.dfy`): `satisfying_assignment`, as a recursive method. It
  returns an assignment exactly when the formula is satisfiable. The
  assignment satisfies the input and uses only values its literals assert.
  The branching loop (lab.py:128-138) is the method `TryBranches`.
* `Combinatorics` (`combinations.dfy`): `combinations` as a method, proved
  equal to `Combos`, a Pascal's-rule reference. `Combos` is in turn
  characterised three ways:
  * as the length-n sub-sequences;
  * by its count, the binomial coefficient;
  * as the list read at strictly increasing positions, in lexicographic
    order of those positions.

  The body of the outer loop (lab.py:163-166) is `CombinationsFrom`. The
  inner loop is `AppendPrefixed`.
* `Scheduling` (`scheduling.dfy`): `boolify_scheduling_problem` as a method,
  proved equal to `Encoding`, a reference built clause by clause in the
  source's order. The two loop bodies are `AppendStudentClauses` and
  `AppendCapacityClauses`.
* `EncodingShape` (`encoding_shape.dfy`): which clauses the encoding holds,
  in both directions.
* `ScheduleReduction` (`reduction.dfy`): what the formula means. A valid
  schedule places every student in a room they like, and no room over
  capacity. The formula is satisfiable exactly when a valid schedule exists.
  The lemmas `DecodeValid` and `EncodeSatisfies` convert in each direction.
  `SolverAssignmentRespectsProblem` reads the solver's own result directly.
  Every true `student_room` in it names a room the student likes, and no
  room has more true students than its capacity.

Python dictionaries and sets become Dafny sequences in their iteration order:
* the students, the key order of the preference dictionary;
* each student's rooms, the iteration order of their set;
* the rooms, the key order of the capacity dictionary.

`WellFormed` states that these sequences stand for dictionaries and sets,
i.e. they have no repeats and list exactly the keys. The methods need only
`HasKeys`: every listed student has preferences and every listed room has a
capacity.

## Model

| member | source | states |
|---|---|---|
| Cnf.EmptyClauseUnsatisfiable | lab.py:114-116 | a formula containing the empty clause has no satisfying assignment, which justifies the `None` base case |
| Cnf.ExtendsSatisfies | lab.py:134-136 | assigning more variables keeps a satisfied formula satisfied |
| FormulaUpdate.Strip | lab.py:37 | a clause keeps exactly its literals on variables the assignment leaves open, and never grows |
| FormulaUpdate.Without | lab.py:37 | the comprehension keeps exactly the literals different from `(var, not value)` |
| FormulaUpdate.ReduceMembers | lab.py:32-38 | the clauses of the reduced formula are exactly the stripped versions of the clauses the assignment does not satisfy |
| FormulaUpdate.ReduceOneClause | lab.py:32-38 | under `v := b`, a clause containing `(v, b)` is dropped; any other clause loses its `(v, not b)` literals |
| FormulaUpdate.ReduceConcat | lab.py:31-39 | reduction keeps the clauses in their original order |
| FormulaUpdate.ReduceSatisfies | lab.py:25-26 | for an assignment agreeing with `a`, the reduced and the original formula are satisfied alike |
| FormulaUpdate.ReduceLiterals | lab.py:32-38 | no literal is invented, and no assigned variable survives the reduction |
| FormulaUpdate.ReduceShrinks | lab.py:34-35 | dropping a satisfied clause makes the formula strictly shorter |
| FormulaUpdate.ReduceUntouched | lab.py:32-38 | assigning variables the formula does not mention leaves it unchanged |
| FormulaUpdate.ReduceCompose | lab.py:84-87 | reducing by `a` and then by `b`, on disjoint variables, is reducing by `a + b` |
| FormulaUpdate.UpdateFormula | lab.py:17-39 | `update_formula` returns a new formula: the input reduced by `var := value` |
| FormulaUpdate.UpdateProperties | lab.py:25-39 | after the update no literal on `var` remains, no literal is new, the formula is no longer, and assignments with `var == value` satisfy both formulas alike |
| FormulaUpdate.HasEmptyClause | lab.py:42-54 | true exactly when some clause is empty |
| FormulaUpdate.HasEmptyClauseExamples | lab.py:46-49 | the two doctests: `True`, then `False` |
| Propagation.UnitClauses | lab.py:81 | the comprehension keeps exactly the clauses with one literal |
| Propagation.AssignUnitReduces | lab.py:84-87 | a unit clause of the residual names an unassigned variable; assigning it equals extending the assignment, and the formula shrinks |
| Propagation.AssignUnitForced | lab.py:84-86 | the input still forces the extended assignment, and each forced value is a literal of the input |
| Propagation.PropagateStep | lab.py:84-87 | one step of the inner loop keeps the loop invariant; it either shrinks the formula or re-asserts a value already assigned |
| Propagation.UnitSurvives | lab.py:84-92 | after one unit is assigned, an unprocessed unit of the same round is still a unit, or it has become an empty clause |
| Propagation.PendingStep | lab.py:84-92 | the unit clauses collected for a round stay usable while the round assigns earlier ones; this is why overwriting `result[var]` cannot lose a conflict |
| Propagation.SimplifyUnitClauses | lab.py:57-93 | `None` only with an empty clause in the residual and an unsatisfiable input. Otherwise the residual is the input under the returned assignment and has no unit clause. The input forces that assignment, every forced value is a literal of the input, and the residual is no longer than the input |
| Propagation.StrippedSurvives | lab.py:32-38 | a clause the assignment leaves unsatisfied survives in stripped form |
| Propagation.ChainedUnitsAssigned | lab.py:67-68 | under the first doctest's shape, any assignment that leaves no unit clause is `{x: True, y: False}`, and the residual is empty |
| Propagation.ChainedUnits | lab.py:67-68 | the first doctest, for any two variables: `([], {x: True, y: False})` |
| Propagation.LoneUnitAssigned | lab.py:69-70 | under the second doctest's shape, an assignment with no unit clause left is `{z: True}`, with the two-literal clause left over |
| Propagation.LoneUnit | lab.py:69-70 | the second doctest, for any three variables |
| Propagation.SimplifyUnitClausesExamples | lab.py:67-70 | both doctests, on `a`, `b` and `c` |
| Search.BranchRefuted | lab.py:130-134 | a failed branch extends the prefix of refuted literals of the first clause |
| Search.BranchVarsFresh | lab.py:134-136 | the branching variable and the branch's assigned variables are not among the propagated ones |
| Search.MergeExtends | lab.py:135-136 | `result.update(new_result)` followed by `result[var] = value` overwrites nothing: the merge agrees with both parts and with the branch literal |
| Search.MergeSatisfies | lab.py:134-137 | the merged assignment satisfies the input |
| Search.MergeSupported | lab.py:135-136 | every merged value is a literal of the input |
| Search.AllBranchesFail | lab.py:129-138 | if every literal of the first residual clause is refuted, the input is unsatisfiable |
| Search.SatisfyingAssignment | lab.py:96-138 | returns an assignment exactly when the formula is satisfiable; it satisfies the formula and uses only literal values of it; `[]` gives `{}` |
| Search.TryBranches | lab.py:128-138 | the branching loop: the same promise, given the propagation's residual and forced assignment |
| Search.SingleClauseSatisfiable | lab.py:105-107 | a one-clause formula with a literal is satisfiable |
| Search.ClashUnsatisfiable | lab.py:108 | `[[(v, T)], [(v, F)]]` is unsatisfiable |
| Search.SatisfyingAssignmentExamples | lab.py:102-108 | the three doctests: `{}`; an assignment meeting one of `a`, `not b`, `c`; `None` |
| Combinatorics.CombosUnfold | lab.py:157-168 | Pascal's rule: the combinations with the head, then those of the tail |
| Combinatorics.PrependMember | lab.py:166 | `[x] + c` is in the prefixed list exactly when `c` is in the original |
| Combinatorics.CombosMembers | lab.py:144-151 | the combinations are exactly the length-n sub-sequences of the list |
| Combinatorics.BinomialBelow | lab.py:159-160 | there are no combinations of more elements than the list has |
| Combinatorics.CombosCount | lab.py:144-151 | there are `Binomial(len(lst), n)` combinations |
| Combinatorics.RangeProperties | lab.py:162 | `range(lo, hi)` lists `lo`, ..., `hi - 1` |
| Combinatorics.RangeCombosInBounds | lab.py:162-168 | combinations of positions are valid positions |
| Combinatorics.PicksStep | lab.py:162-168 | reading positions commutes with Pascal's rule |
| Combinatorics.CombosAtIndices | lab.py:162-168 | the combinations of `lst[lo:]` are the list read at the combinations of the positions `lo`, ... |
| Combinatorics.SubseqElements | lab.py:144-151 | every element of a sub-sequence comes from the list |
| Combinatorics.CombosElements | lab.py:144-151 | every element of a combination comes from the list |
| Combinatorics.IncreasingCons | lab.py:165-166 | prefixing a smaller position keeps positions increasing |
| Combinatorics.SubseqIncreasing | lab.py:162-168 | a sub-sequence of increasing positions is increasing |
| Combinatorics.CombosIncreasing | lab.py:162-168 | each combination uses strictly increasing positions |
| Combinatorics.CombosLexSorted | lab.py:152-156 | the combinations of positions come in strictly increasing lexicographic order |
| Combinatorics.CombosInPositionOrder | lab.py:144-156 | every combination is the list read at strictly increasing positions, the positions are in lexicographic order, and each combination has n elements |
| Combinatorics.CombosStep | lab.py:162-168 | after round `i` of the outer loop, the combinations of `lst[i + 1:]` remain |
| Combinatorics.CombosFrom | lab.py:162-168 | Pascal's rule at position `i` |
| Combinatorics.AppendPrefixed | lab.py:165-166 | the inner loop appends `[elem] + combo` for every combo, in order |
| Combinatorics.Combinations | lab.py:142-169 | `combinations(lst, n)` equals the reference enumeration, including `[[]]` for `n == 0` and `[]` for a list that is too short |
| Combinatorics.CombinationsFrom | lab.py:162-166 | one round of the outer loop keeps the loop invariant |
| Combinatorics.SinglesOfTwo | lab.py:157-168 | the combinations of one or two elements, for any elements |
| Combinatorics.PairsOfThree | lab.py:153-154 | the first doctest, for any three elements |
| Combinatorics.TriplesOfFour | lab.py:155-156 | the second doctest, for any four elements |
| Combinatorics.CombinationsExamples | lab.py:152-156 | both doctests |
| Scheduling.VarName | lab.py:205-206 | the variable `student + "_" + room` has the underscore right after the student's name |
| Scheduling.VarNameInjective | lab.py:185 | with no `_` in student names, distinct (student, room) pairs name distinct variables |
| Scheduling.Groups | lab.py:217-220 | each room with a capacity gets a list of student groups |
| Scheduling.AtLeastOneStep | lab.py:209-211 | one iteration adds the next positive literal |
| Scheduling.CapacityStep | lab.py:222-224 | one iteration adds the next negative literal |
| Scheduling.StudentStep | lab.py:199-212 | one student's clauses extend the student part |
| Scheduling.RoomStep | lab.py:221-225 | one group's clause extends the room's clauses |
| Scheduling.RoomPartStep | lab.py:217-225 | one room's clauses extend the capacity part |
| Scheduling.RoomDone | lab.py:217-225 | one room's clauses extend the formula built so far |
| Scheduling.AppendStudentClauses | lab.py:200-212 | appends all "not both" clauses and then the "at least one" clause |
| Scheduling.AppendCapacityClauses | lab.py:221-225 | appends one "not all of them here" clause per group |
| Scheduling.BoolifySchedulingProblem | lab.py:172-227 | returns the reference encoding, in the source's clause order |
| EncodingShape.AtLeastOneShape | lab.py:209-212 | the "at least one" clause has one positive literal per acceptable room, in order, and nothing else |
| EncodingShape.CapacityClauseShape | lab.py:221-225 | a capacity clause has one negative literal per student of the group, in order |
| EncodingShape.RowContains | lab.py:202-207 | row `i` holds the pair clause of `i` with each later `j` |
| EncodingShape.RowSource | lab.py:202-207 | row `i` holds nothing else |
| EncodingShape.PairsContains | lab.py:201-207 | every pair `i < j` of a student's rooms has its clause |
| EncodingShape.PairsSource | lab.py:201-207 | there are no other pair clauses |
| EncodingShape.StudentPartContains | lab.py:199-212 | every listed student's clauses are in the student part |
| EncodingShape.StudentPartSource | lab.py:199-212 | the student part holds nothing else |
| EncodingShape.RoomClausesContains | lab.py:221-225 | every group has its clause |
| EncodingShape.RoomClausesSource | lab.py:221-225 | a room's clauses are all group clauses |
| EncodingShape.RoomPartContains | lab.py:217-225 | every listed room's clauses are in the capacity part |
| EncodingShape.RoomPartSource | lab.py:217-225 | the capacity part holds nothing else |
| EncodingShape.AtLeastOneInEncoding | lab.py:209-212 | the formula holds each listed student's "at least one" clause |
| EncodingShape.PairInEncoding | lab.py:196-207 | the formula holds "not both" for each pair `i < j` of a student's rooms |
| EncodingShape.CapacityInEncoding | lab.py:214-225 | the formula holds, for each listed room, a negative clause for every group of `capacity + 1` students taken in list order |
| EncodingShape.GroupMember | lab.py:219-220 | every such group is among the room's groups |
| EncodingShape.EncodingClauseKinds | lab.py:196-227 | every clause of the formula is of one of those three kinds |
| EncodingShape.CapacityClauseLiterals | lab.py:214-225 | every capacity clause has exactly `capacity + 1` literals, all negative |
| ScheduleReduction.Occupants | lab.py:214-216 | the students a schedule puts in a room, as a sub-list of the student list |
| ScheduleReduction.FirstTrue | lab.py:182-183 | the first acceptable room whose variable is true, or `None` when there is none |
| ScheduleReduction.Decode | lab.py:182-183 | the decoded schedule places students only in acceptable rooms whose variables are true |
| ScheduleReduction.OccupantsSubseq | lab.py:214-216 | the occupants form a sub-sequence of the students |
| ScheduleReduction.SubseqPrefix | lab.py:214-216 | the first k occupants still form a sub-sequence |
| ScheduleReduction.SubseqOfOccupants | lab.py:214-216 | a group of students all in the room is no larger than the room's occupants |
| ScheduleReduction.EncodeValue | lab.py:185 | under a schedule's assignment, `student_room` is true exactly when the schedule puts the student in that room |
| ScheduleReduction.LiteralVar | lab.py:172-227 | a literal of the formula names one of its variables |
| ScheduleReduction.EncodeLiteral | lab.py:185 | each literal of the formula is true under a schedule's assignment exactly when it agrees with the schedule |
| ScheduleReduction.AtLeastOneSat | lab.py:209-212 | a valid schedule satisfies each "at least one" clause |
| ScheduleReduction.PairSat | lab.py:196-207 | a schedule satisfies each "not both" clause, since a student's rooms are distinct |
| ScheduleReduction.CapacitySat | lab.py:214-225 | a valid schedule satisfies each capacity clause |
| ScheduleReduction.EncodeSatisfies | lab.py:172-227 | completeness: a valid schedule's assignment satisfies the formula |
| ScheduleReduction.OccupancyBound | lab.py:214-225 | under a satisfying assignment, no listed room holds more decoded students than its capacity |
| ScheduleReduction.DecodeValid | lab.py:172-227 | soundness: the schedule decoded from any satisfying assignment is valid |
| ScheduleReduction.ReductionCorrect | lab.py:172-183 | the formula is satisfiable exactly when the problem has a valid schedule |
| ScheduleReduction.AtMostOneRoom | lab.py:196-207 | a satisfying assignment never puts a student in two of their rooms |
| ScheduleReduction.PositiveLiteralSource | lab.py:196-225 | the only positive literals of the formula are the "at least one" literals: each names a listed student and one of that student's rooms |
| ScheduleReduction.TrueOnlyPreferred | lab.py:209-212 | under an assignment whose every value is a literal of the formula, as the solver returns, a true `student_room` of a listed student names a room the student likes |
| ScheduleReduction.TrueMeansDecoded | lab.py:196-212 | under a satisfying assignment of that kind, a true `student_room` is exactly the decoded placement of the student |
| ScheduleReduction.TrueIn | lab.py:214-225 | the listed students whose variable for a room is true, in list order |
| ScheduleReduction.TrueInDecoded | lab.py:214-225 | under the solver's kind of assignment, those students are exactly the decoded occupants of the room |
| ScheduleReduction.SolverAssignmentRespectsProblem | lab.py:172-227 | whatever the solver returns on the formula makes `student_room` true only for rooms the student likes, and no listed room has more true students than its capacity |
| ScheduleReduction.EmptyPreferencesUnsatisfiable | lab.py:209-212 | a student with no acceptable room contributes the empty clause, so the formula is unsatisfiable |
| ScheduleReduction.EmptyPreferencesNoSolution | lab.py:209-212 | building the formula of such a problem and running the solver on it gives `None` |

Loop-step helpers have no row: `Combinatorics.PrependSnoc`,
`Combinatorics.ConcatStep`, `Scheduling.PairsStep`, `Scheduling.PairsRowDone`
and `Scheduling.GroupsLookup`. They are proof steps used by the loop
invariants above: a definition unfolded once, associativity of sequence
concatenation, and a map lookup. They state nothing about the source on their
own.

## Left out

- The `__main__` doctest runner (lab.py:230-236) is not modelled. It is a
  console test harness.
- `sys.setrecursionlimit` (lab.py:13) is not modelled. It is an interpreter
  setting; the model's recursion is unbounded.
- The `all_vars` list (lab.py:189-192) is not modelled. It is computed and
  never used.
- Python set and dictionary iteration orders are not modelled. They become
  given sequences, as described above. Properties that do not depend on
  order are stated over clause membership (`EncodingShape`).
- In-place updates are not modelled literally:
  - The copy `clause[:]` (lab.py:75) has no counterpart, since Dafny
    sequences are values.
  - `result[var] = value` and `result.update(...)` become reassignments of
    a `map`.
  - So "does not mutate its input" holds by construction.
- Scheduling.Problem: capacities are natural numbers. The source documents
  them as positive integers, and negative capacities are not modelled.
  For the record, with capacity `-1` the source would emit an empty clause.
- Combinatorics.Combinations: `n` is a natural number. The docstring
  (lab.py:147) asks for a positive integer, but the code also handles
  `n == 0` (lab.py:158-159), and the model keeps that case. Negative `n`
  is not modelled.
- Scheduling.BoolifySchedulingProblem: rooms that students like but that
  have no capacity entry get no capacity clause, exactly as in the source.
  `ValidSchedule` accordingly does not limit them.
- Scheduling.VarNameInjective and ScheduleReduction.ReductionCorrect: they
  assume no `_` in student names, as the source's docstring does
  (lab.py:185). Room names may contain `_`.
- ScheduleReduction.ValidSchedule, Decode and Encode are not in the source.
  They state what the formula means, following the docstring of
  `boolify_scheduling_problem`.

/** `solveSudoku` (sudokuSolver.py, lines 9-138): the clues become positive
    unit literals, unit propagation runs on the Sudoku CNF, and a search
    guesses a number for an open cell, keeping the other candidates with a
    copy of the clause list on a stack to come back to when the empty clause
    appears. */
module SudokuSolver {
  import opened Seqs
  import opened Logic
  import opened Propagation
  import opened SudokuNames
  import opened SudokuCnf
  import opened SudokuGrid

  /** The literal "cell (`row`, `col`) holds `n`", positive or negated. */
  function Lit(positive: bool, row: int, col: int, n: int): Literal<string> {
    Literal(positive, Name(row, col, n))
  }

  /** `[(True, name)] in cnf`: the cell is set to `n`. */
  predicate IsSet(cnf: Cnf<string>, row: int, col: int, n: int) {
    [Lit(true, row, col, n)] in cnf
  }

  /** `[(False, name)] in cnf`: `n` is ruled out for the cell. */
  predicate IsExcluded(cnf: Cnf<string>, row: int, col: int, n: int) {
    [Lit(false, row, col, n)] in cnf
  }

  // ---------------------------------------------------------------------------
  // isInSolvedState (lines 19-53)

  predicate AllUnits(cnf: Cnf<string>) {
    forall i :: 0 <= i < |cnf| ==> |cnf[i]| == 1
  }

  /** Lines 38-44 for the numbers `n`..9 of one cell; `seen` is
      `onlyOneOfEachFieldSet`, and the result is the test of lines 45-46. */
  function CellScan(cnf: Cnf<string>, row: int, col: int, n: int, seen: bool): bool
    requires 1 <= n <= 10
    decreases 10 - n
  {
    if n == 10 then seen
    else if !IsExcluded(cnf, row, col, n) && !IsSet(cnf, row, col, n) then false
    else if IsSet(cnf, row, col, n) && seen then false
    else CellScan(cnf, row, col, n + 1, seen || IsSet(cnf, row, col, n))
  }

  /** Lines 36-47 for the cells `k`..80 in row-major order. */
  function CellsFrom(cnf: Cnf<string>, k: int): bool
    requires 0 <= k <= 81
    decreases 81 - k
  {
    if k == 81 then true
    else CellScan(cnf, k / 9, k % 9, 1, false) && CellsFrom(cnf, k + 1)
  }

  function IsInSolvedState(cnf: Cnf<string>): bool {
    |cnf| == 729 && AllUnits(cnf) && CellsFrom(cnf, 0)
  }

  /** Every number from `n` on is either set or ruled out for the cell. */
  ghost predicate CoveredFrom(cnf: Cnf<string>, row: int, col: int, n: int) {
    forall m :: n <= m <= 9 ==> IsSet(cnf, row, col, m) || IsExcluded(cnf, row, col, m)
  }

  ghost predicate SomeSetFrom(cnf: Cnf<string>, row: int, col: int, n: int) {
    exists m :: n <= m <= 9 && IsSet(cnf, row, col, m)
  }

  ghost predicate AtMostOneSetFrom(cnf: Cnf<string>, row: int, col: int, n: int) {
    forall m1, m2 :: n <= m1 < m2 <= 9 ==> !(IsSet(cnf, row, col, m1) && IsSet(cnf, row, col, m2))
  }

  /** A cell is decided: each of its nine numbers is set or ruled out, and
      exactly one is set. */
  ghost predicate Decided(cnf: Cnf<string>, row: int, col: int) {
    CoveredFrom(cnf, row, col, 1) && SomeSetFrom(cnf, row, col, 1) && AtMostOneSetFrom(cnf, row, col, 1)
  }

  /** The solved state: 729 unit clauses and every cell decided. */
  ghost predicate SolvedSpec(cnf: Cnf<string>) {
    |cnf| == 729 && AllUnits(cnf)
    && forall row, col :: 0 <= row < 9 && 0 <= col < 9 ==> Decided(cnf, row, col)
  }

  lemma {:induction false} CellScanSpec(cnf: Cnf<string>, row: int, col: int, n: int, seen: bool)
    requires 1 <= n <= 10
    ensures CellScan(cnf, row, col, n, seen) <==>
      CoveredFrom(cnf, row, col, n)
      && (if seen then !SomeSetFrom(cnf, row, col, n)
          else SomeSetFrom(cnf, row, col, n) && AtMostOneSetFrom(cnf, row, col, n))
    decreases 10 - n
  {
    if n < 10 {
      CellScanSpec(cnf, row, col, n + 1, seen || IsSet(cnf, row, col, n));
      if IsSet(cnf, row, col, n) {
        assert SomeSetFrom(cnf, row, col, n);
      }
      if SomeSetFrom(cnf, row, col, n + 1) {
        var m :| n + 1 <= m <= 9 && IsSet(cnf, row, col, m);
        assert SomeSetFrom(cnf, row, col, n);
      }
    }
  }

  lemma {:induction false} CellsFromSpec(cnf: Cnf<string>, k: int)
    requires 0 <= k <= 81
    ensures CellsFrom(cnf, k) <==> forall j :: k <= j < 81 ==> Decided(cnf, j / 9, j % 9)
    decreases 81 - k
  {
    if k < 81 {
      CellsFromSpec(cnf, k + 1);
      CellScanSpec(cnf, k / 9, k % 9, 1, false);
      assert CellScan(cnf, k / 9, k % 9, 1, false) <==> Decided(cnf, k / 9, k % 9);
      if CellsFrom(cnf, k) {
        forall j | k <= j < 81 ensures Decided(cnf, j / 9, j % 9) {
          if j > k {
            assert k + 1 <= j;
          }
        }
      }
    }
  }

  /** Cells listed by row-major index are cells listed by row and column. */
  lemma DecidedByIndex(cnf: Cnf<string>)
    requires forall j :: 0 <= j < 81 ==> Decided(cnf, j / 9, j % 9)
    ensures forall row, col :: 0 <= row < 9 && 0 <= col < 9 ==> Decided(cnf, row, col)
  {
    forall row, col | 0 <= row < 9 && 0 <= col < 9 ensures Decided(cnf, row, col) {
      var j := 9 * row + col;
      assert j / 9 == row && j % 9 == col;
    }
  }

  lemma DecidedByCell(cnf: Cnf<string>)
    requires forall row, col :: 0 <= row < 9 && 0 <= col < 9 ==> Decided(cnf, row, col)
    ensures forall j :: 0 <= j < 81 ==> Decided(cnf, j / 9, j % 9)
  {
    forall j | 0 <= j < 81 ensures Decided(cnf, j / 9, j % 9) {
      assert 0 <= j / 9 < 9 && 0 <= j % 9 < 9;
    }
  }

  /** `isInSolvedState` accepts exactly the solved states. */
  lemma IsInSolvedStateSpec(cnf: Cnf<string>)
    ensures IsInSolvedState(cnf) <==> SolvedSpec(cnf)
  {
    CellsFromSpec(cnf, 0);
    if CellsFrom(cnf, 0) {
      DecidedByIndex(cnf);
    }
    if SolvedSpec(cnf) {
      DecidedByCell(cnf);
    }
  }

  // ---------------------------------------------------------------------------
  // getUnallocatetField (lines 55-80)

  /** `(row, col, tmpList)`. */
  datatype Field = Field(row: int, col: int, candidates: seq<int>)

  /** No number is set for the cell (the condition of line 66). */
  predicate IsOpen(cnf: Cnf<string>, row: int, col: int) {
    forall n :: 1 <= n <= 9 ==> !IsSet(cnf, row, col, n)
  }

  /** Lines 67-70 from number `n` on, `acc` being `tmpList`. */
  function CandidatesFrom(cnf: Cnf<string>, row: int, col: int, n: int, acc: seq<int>): seq<int>
    requires 1 <= n <= 10
    decreases 10 - n
  {
    if n == 10 then acc
    else
      var acc' := if !IsExcluded(cnf, row, col, n) && n !in acc then acc + [n] else acc;
      CandidatesFrom(cnf, row, col, n + 1, acc')
  }

  /** The numbers not ruled out for the cell. */
  function Candidates(cnf: Cnf<string>, row: int, col: int): seq<int> {
    CandidatesFrom(cnf, row, col, 1, [])
  }

  predicate Increasing(s: seq<int>) {
    forall i, j :: 0 <= i < j < |s| ==> s[i] < s[j]
  }

  lemma {:induction false} CandidatesFromIncreasing(cnf: Cnf<string>, row: int, col: int, n: int, acc: seq<int>)
    requires 1 <= n <= 10 && Increasing(acc)
    requires forall i :: 0 <= i < |acc| ==> acc[i] < n
    ensures Increasing(CandidatesFrom(cnf, row, col, n, acc))
    decreases 10 - n
  {
    if n < 10 {
      var acc' := if !IsExcluded(cnf, row, col, n) && n !in acc then acc + [n] else acc;
      AppendAbove(acc, n);
      CandidatesFromIncreasing(cnf, row, col, n + 1, acc');
    }
  }

  /** Appending a number above all others keeps a list increasing. */
  lemma AppendAbove(acc: seq<int>, n: int)
    requires Increasing(acc) && forall i :: 0 <= i < |acc| ==> acc[i] < n
    ensures Increasing(acc + [n])
    ensures forall i :: 0 <= i < |acc + [n]| ==> (acc + [n])[i] < n + 1
    ensures forall i :: 0 <= i < |acc| ==> acc[i] < n + 1
  {
    var s := acc + [n];
    forall i, j | 0 <= i < j < |s| ensures s[i] < s[j] {
      assert s[i] == acc[i];
    }
  }

  lemma {:induction false} CandidatesFromMembers(cnf: Cnf<string>, row: int, col: int, n: int, acc: seq<int>)
    requires 1 <= n <= 10
    ensures forall m :: m in CandidatesFrom(cnf, row, col, n, acc) <==>
      m in acc || (n <= m <= 9 && !IsExcluded(cnf, row, col, m))
    decreases 10 - n
  {
    if n < 10 {
      var acc' := if !IsExcluded(cnf, row, col, n) && n !in acc then acc + [n] else acc;
      assert forall m :: m in acc' <==> m in acc || (m == n && !IsExcluded(cnf, row, col, n));
      CandidatesFromMembers(cnf, row, col, n + 1, acc');
    }
  }

  /** The candidates are the numbers 1-9 not ruled out, in increasing order. */
  lemma CandidatesSpec(cnf: Cnf<string>, row: int, col: int)
    ensures Increasing(Candidates(cnf, row, col))
    ensures forall m :: m in Candidates(cnf, row, col) <==> 1 <= m <= 9 && !IsExcluded(cnf, row, col, m)
  {
    CandidatesFromIncreasing(cnf, row, col, 1, []);
    CandidatesFromMembers(cnf, row, col, 1, []);
  }

  /** Lines 64-78 for the cells `k`..80, `best` being `tmpResult`: the first
      open cell with two candidates is returned at once; otherwise an open
      cell replaces `best` when there is none yet or when it has strictly
      fewer candidates. */
  function FieldScan(cnf: Cnf<string>, k: int, best: Option<Field>): Option<Field>
    requires 0 <= k <= 81
    decreases 81 - k
  {
    if k == 81 then best
    else
      var row, col := k / 9, k % 9;
      if !IsOpen(cnf, row, col) then FieldScan(cnf, k + 1, best)
      else
        var cands := Candidates(cnf, row, col);
        if |cands| == 2 then Some(Field(row, col, cands))
        else if best.Some? && |cands| < |best.value.candidates| then FieldScan(cnf, k + 1, Some(Field(row, col, cands)))
        else if best.None? then FieldScan(cnf, k + 1, Some(Field(row, col, cands)))
        else FieldScan(cnf, k + 1, best)
  }

  function GetUnallocatedField(cnf: Cnf<string>): Option<Field> {
    FieldScan(cnf, 0, None)
  }

  /** Whether each cell is open, in row-major order. */
  function Opens(cnf: Cnf<string>): seq<bool> {
    seq(81, k requires 0 <= k < 81 => IsOpen(cnf, k / 9, k % 9))
  }

  /** The number of candidates of each cell, in row-major order. */
  function Counts(cnf: Cnf<string>): seq<int> {
    seq(81, k requires 0 <= k < 81 => |Candidates(cnf, k / 9, k % 9)|)
  }

  function FieldAt(cnf: Cnf<string>, k: int): Field {
    Field(k / 9, k % 9, Candidates(cnf, k / 9, k % 9))
  }

  /** Cell `k` is the first open cell with exactly two candidates. */
  ghost predicate FirstWithTwo(opens: seq<bool>, counts: seq<int>, k: int)
    requires |opens| == |counts| == 81
  {
    0 <= k < 81 && opens[k] && counts[k] == 2
    && forall j :: 0 <= j < k && opens[j] ==> counts[j] != 2
  }

  /** No open cell has two candidates and cell `k` is the first open cell
      with the fewest. */
  ghost predicate FirstFewest(opens: seq<bool>, counts: seq<int>, k: int)
    requires |opens| == |counts| == 81
  {
    0 <= k < 81 && opens[k]
    && (forall j :: 0 <= j < 81 && opens[j] ==> counts[j] != 2)
    && (forall j :: 0 <= j < k && opens[j] ==> counts[k] < counts[j])
    && (forall j :: k < j < 81 && opens[j] ==> counts[k] <= counts[j])
  }

  /** Cell `m` leads the scan of the cells before `k`: the first open one
      with the fewest candidates. */
  ghost predicate Leads(opens: seq<bool>, counts: seq<int>, m: int, k: int)
    requires |opens| == |counts| == 81 && k <= 81
  {
    0 <= m < k && opens[m]
    && (forall j :: 0 <= j < m && opens[j] ==> counts[m] < counts[j])
    && (forall j :: m < j < k && opens[j] ==> counts[m] <= counts[j])
  }

  /** After the cells before `k`: none of the open ones had two candidates,
      and `lead` is the leading cell, or -1 when none was open. */
  ghost predicate FieldScanInv(opens: seq<bool>, counts: seq<int>, k: int, lead: int)
    requires |opens| == |counts| == 81 && 0 <= k <= 81
  {
    (forall j :: 0 <= j < k && opens[j] ==> counts[j] != 2)
    && (lead < 0 <==> forall j :: 0 <= j < k ==> !opens[j])
    && (lead >= 0 ==> Leads(opens, counts, lead, k))
  }

  /** `tmpResult` for the leading cell `lead`. */
  function BestOf(cnf: Cnf<string>, lead: int): Option<Field> {
    if lead < 0 then None else Some(FieldAt(cnf, lead))
  }

  lemma ScanStep(opens: seq<bool>, counts: seq<int>, k: int, lead: int)
    requires |opens| == |counts| == 81 && 0 <= k < 81 && FieldScanInv(opens, counts, k, lead)
    requires opens[k] ==> counts[k] != 2
    ensures !opens[k] ==> FieldScanInv(opens, counts, k + 1, lead)
    ensures opens[k] && lead >= 0 && counts[k] < counts[lead] ==> FieldScanInv(opens, counts, k + 1, k)
    ensures opens[k] && lead < 0 ==> FieldScanInv(opens, counts, k + 1, k)
    ensures opens[k] && lead >= 0 && counts[k] >= counts[lead] ==> FieldScanInv(opens, counts, k + 1, lead)
  {
  }

  lemma ScanEnd(opens: seq<bool>, counts: seq<int>, lead: int)
    requires |opens| == |counts| == 81 && FieldScanInv(opens, counts, 81, lead) && lead >= 0
    ensures FirstFewest(opens, counts, lead)
  {
  }

  /** One cell of the scan that does not end it. */
  lemma FieldScanStep(cnf: Cnf<string>, k: int, lead: int) returns (lead': int)
    requires 0 <= k < 81 && FieldScanInv(Opens(cnf), Counts(cnf), k, lead)
    requires !(Opens(cnf)[k] && Counts(cnf)[k] == 2)
    ensures FieldScanInv(Opens(cnf), Counts(cnf), k + 1, lead')
    ensures FieldScan(cnf, k, BestOf(cnf, lead)) == FieldScan(cnf, k + 1, BestOf(cnf, lead'))
  {
    var opens, counts := Opens(cnf), Counts(cnf);
    var best := BestOf(cnf, lead);
    assert opens[k] == IsOpen(cnf, k / 9, k % 9);
    assert counts[k] == |Candidates(cnf, k / 9, k % 9)|;
    ScanStep(opens, counts, k, lead);
    if !opens[k] {
      lead' := lead;
    } else {
      lead' := if lead < 0 || counts[k] < counts[lead] then k else lead;
      if lead >= 0 {
        assert |best.value.candidates| == counts[lead];
      }
    }
  }

  /** The scan ends at an open cell with two candidates. */
  lemma FieldScanTwo(cnf: Cnf<string>, k: int, lead: int)
    requires 0 <= k < 81 && FieldScanInv(Opens(cnf), Counts(cnf), k, lead)
    requires Opens(cnf)[k] && Counts(cnf)[k] == 2
    ensures FieldScan(cnf, k, BestOf(cnf, lead)) == Some(FieldAt(cnf, k))
    ensures FirstWithTwo(Opens(cnf), Counts(cnf), k)
  {
    assert Opens(cnf)[k] == IsOpen(cnf, k / 9, k % 9);
    assert Counts(cnf)[k] == |Candidates(cnf, k / 9, k % 9)|;
  }

  lemma {:induction false} FieldScanSpec(cnf: Cnf<string>, k: int, lead: int)
    requires 0 <= k <= 81 && FieldScanInv(Opens(cnf), Counts(cnf), k, lead)
    ensures FieldScan(cnf, k, BestOf(cnf, lead)).None? <==> forall j :: 0 <= j < 81 ==> !Opens(cnf)[j]
    ensures FieldScan(cnf, k, BestOf(cnf, lead)).Some? ==>
      exists m :: (FirstWithTwo(Opens(cnf), Counts(cnf), m) || FirstFewest(Opens(cnf), Counts(cnf), m))
        && FieldScan(cnf, k, BestOf(cnf, lead)).value == FieldAt(cnf, m)
    decreases 81 - k
  {
    if k == 81 {
      if lead >= 0 {
        ScanEnd(Opens(cnf), Counts(cnf), lead);
      }
    } else if Opens(cnf)[k] && Counts(cnf)[k] == 2 {
      FieldScanTwo(cnf, k, lead);
    } else {
      var lead' := FieldScanStep(cnf, k, lead);
      FieldScanSpec(cnf, k + 1, lead');
    }
  }

  /** `getUnallocatetField` returns `None` exactly when no cell is open;
      otherwise the first open cell with two candidates, or, when there is
      none, the first open cell with the fewest candidates. */
  lemma GetUnallocatedFieldSpec(cnf: Cnf<string>)
    ensures GetUnallocatedField(cnf).None? <==> forall k :: 0 <= k < 81 ==> !Opens(cnf)[k]
    ensures GetUnallocatedField(cnf).Some? ==>
      exists k :: (FirstWithTwo(Opens(cnf), Counts(cnf), k) || FirstFewest(Opens(cnf), Counts(cnf), k))
        && GetUnallocatedField(cnf).value == FieldAt(cnf, k)
  {
    assert BestOf(cnf, -1) == None;
    FieldScanSpec(cnf, 0, -1);
  }

  // ---------------------------------------------------------------------------
  // Reading the clues (lines 89-95) and filling in the result (lines 120-136)

  /** Lines 91-94 for the cells `k`..80 in row-major order: a positive
      literal per cell with a nonzero entry. */
  function CluesFrom(puzzle: Grid, k: int): seq<Literal<string>>
    requires Shape(puzzle) && 0 <= k <= 81
    decreases 81 - k
  {
    if k == 81 then []
    else
      var v := puzzle[k / 9][k % 9];
      (if v != 0 then [Lit(true, k / 9, k % 9, v)] else []) + CluesFrom(puzzle, k + 1)
  }

  /** `setOfUnitClauses`, listed in row-major order. */
  function ClueLiterals(puzzle: Grid): seq<Literal<string>>
    requires Shape(puzzle)
  {
    CluesFrom(puzzle, 0)
  }

  /** The clue of cell `j`, if it has one. */
  ghost predicate ClueAt(puzzle: Grid, j: int, l: Literal<string>)
    requires Shape(puzzle)
  {
    0 <= j < 81 && puzzle[j / 9][j % 9] != 0 && l == Lit(true, j / 9, j % 9, puzzle[j / 9][j % 9])
  }

  /** `l` is the clue of one of the cells `k`..80. */
  ghost predicate ClueIn(puzzle: Grid, k: int, l: Literal<string>)
    requires Shape(puzzle) && 0 <= k <= 81
    decreases 81 - k
  {
    k < 81 && (ClueAt(puzzle, k, l) || ClueIn(puzzle, k + 1, l))
  }

  lemma {:induction false} ClueInSpec(puzzle: Grid, k: int, l: Literal<string>)
    requires Shape(puzzle) && 0 <= k <= 81
    ensures ClueIn(puzzle, k, l) <==> exists j :: k <= j && ClueAt(puzzle, j, l)
    decreases 81 - k
  {
    if k < 81 {
      ClueInSpec(puzzle, k + 1, l);
      if exists j :: k <= j && ClueAt(puzzle, j, l) {
        var j :| k <= j && ClueAt(puzzle, j, l);
        assert j == k || ClueIn(puzzle, k + 1, l);
      }
    }
  }

  lemma {:induction false} CluesFromMembers(puzzle: Grid, k: int)
    requires Shape(puzzle) && 0 <= k <= 81
    ensures forall l :: l in CluesFrom(puzzle, k) <==> ClueIn(puzzle, k, l)
    decreases 81 - k
  {
    if k < 81 {
      CluesFromMembers(puzzle, k + 1);
      var v := puzzle[k / 9][k % 9];
      var head := if v != 0 then [Lit(true, k / 9, k % 9, v)] else [];
      assert CluesFrom(puzzle, k) == head + CluesFrom(puzzle, k + 1);
      forall l ensures l in head <==> ClueAt(puzzle, k, l) {
      }
    }
  }

  /** Two cells with the same clue literal are the same cell. */
  lemma ClueAtSameCell(puzzle: Grid, j: int, k: int, l: Literal<string>)
    requires Shape(puzzle) && ClueAt(puzzle, j, l) && ClueAt(puzzle, k, l)
    ensures j == k
  {
    NameCell(j / 9, j % 9, puzzle[j / 9][j % 9], k / 9, k % 9, puzzle[k / 9][k % 9]);
  }

  /** The clue of cell `k` is not repeated by a later cell. */
  lemma LaterCluesDiffer(puzzle: Grid, k: int)
    requires Shape(puzzle) && 0 <= k < 81 && puzzle[k / 9][k % 9] != 0
    ensures Lit(true, k / 9, k % 9, puzzle[k / 9][k % 9]) !in CluesFrom(puzzle, k + 1)
  {
    var l := Lit(true, k / 9, k % 9, puzzle[k / 9][k % 9]);
    if l in CluesFrom(puzzle, k + 1) {
      CluesFromMembers(puzzle, k + 1);
      ClueInSpec(puzzle, k + 1, l);
      var j :| k + 1 <= j && ClueAt(puzzle, j, l);
      ClueAtSameCell(puzzle, j, k, l);
    }
  }

  lemma {:induction false} CluesFromDistinct(puzzle: Grid, k: int)
    requires Shape(puzzle) && 0 <= k <= 81
    ensures NoDuplicates(CluesFrom(puzzle, k))
    decreases 81 - k
  {
    if k < 81 {
      CluesFromDistinct(puzzle, k + 1);
      var rest := CluesFrom(puzzle, k + 1);
      if puzzle[k / 9][k % 9] != 0 {
        var l := Lit(true, k / 9, k % 9, puzzle[k / 9][k % 9]);
        LaterCluesDiffer(puzzle, k);
        assert CluesFrom(puzzle, k) == [l] + rest;
        PrependFreshNoDuplicates(l, rest);
      } else {
        assert CluesFrom(puzzle, k) == rest;
      }
    }
  }

  /** The clue literals are distinct and are exactly the "cell holds its
      nonzero entry" literals. */
  lemma ClueLiteralsSpec(puzzle: Grid)
    requires Shape(puzzle)
    ensures NoDuplicates(ClueLiterals(puzzle))
    ensures forall row, col :: 0 <= row < 9 && 0 <= col < 9 && puzzle[row][col] != 0 ==>
      Lit(true, row, col, puzzle[row][col]) in ClueLiterals(puzzle)
    ensures forall l :: l in ClueLiterals(puzzle) ==>
      exists row, col :: 0 <= row < 9 && 0 <= col < 9 && puzzle[row][col] != 0 && l == Lit(true, row, col, puzzle[row][col])
  {
    CluesFromDistinct(puzzle, 0);
    CluesFromMembers(puzzle, 0);
    forall row, col | 0 <= row < 9 && 0 <= col < 9 && puzzle[row][col] != 0
      ensures Lit(true, row, col, puzzle[row][col]) in ClueLiterals(puzzle)
    {
      var j := 9 * row + col;
      assert j / 9 == row && j % 9 == col;
      assert ClueAt(puzzle, j, Lit(true, row, col, puzzle[row][col]));
      ClueInSpec(puzzle, 0, Lit(true, row, col, puzzle[row][col]));
    }
    forall l | l in ClueLiterals(puzzle)
      ensures exists row, col :: 0 <= row < 9 && 0 <= col < 9 && puzzle[row][col] != 0 && l == Lit(true, row, col, puzzle[row][col])
    {
      ClueInSpec(puzzle, 0, l);
      var j :| 0 <= j && ClueAt(puzzle, j, l);
      var row, col := j / 9, j % 9;
      assert 0 <= row < 9 && 0 <= col < 9 && puzzle[row][col] != 0 && l == Lit(true, row, col, puzzle[row][col]);
    }
  }

  /** `result` before it is filled in (lines 121-133). */
  function EmptyGrid(): Grid {
    seq(9, _ => seq(9, _ => 0))
  }

  /** Lines 134-136: every positive clause writes the number its first
      literal names into the cell it names. `None` stands for the
      `IndexError` (an empty clause, a name shorter than four characters, a
      row or column of 9) or `ValueError` (a non-digit) Python raises. */
  function FillFrom(cnf: Cnf<string>, grid: Grid): Option<Grid>
    requires Shape(grid)
    decreases |cnf|
  {
    if cnf == [] then Some(grid)
    else if cnf[0] == [] then None
    else if !cnf[0][0].positive then FillFrom(cnf[1..], grid)
    else match DecodeName(cnf[0][0].name)
      case None => None
      case Some((row, col, n)) =>
        if row < 9 && col < 9 then FillFrom(cnf[1..], grid[row := grid[row][col := n]]) else None
  }

  /** Every clause is a unit, and a positive one names a cell of the grid and
      a digit. */
  ghost predicate Readable(cnf: Cnf<string>) {
    forall cl :: cl in cnf ==> ReadableClause(cl)
  }

  ghost predicate ReadableClause(cl: Clause<string>) {
    |cl| == 1
    && (cl[0].positive ==>
          exists row, col, n :: 0 <= row < 9 && 0 <= col < 9 && 0 <= n < 10 && cl[0] == Lit(true, row, col, n))
  }

  /** No cell is set to two numbers. */
  ghost predicate OneValuePerCell(cnf: Cnf<string>) {
    forall row, col, n, m :: 0 <= row < 9 && 0 <= col < 9 && 0 <= n < m < 10 ==>
      !(IsSet(cnf, row, col, n) && IsSet(cnf, row, col, m))
  }

  /** Some digit is set for the cell. */
  ghost predicate HasValue(cnf: Cnf<string>, row: int, col: int) {
    exists n :: 0 <= n < 10 && IsSet(cnf, row, col, n)
  }

  /** `g` is `grid` with every cell that `cnf` sets to a digit changed to that
      digit. */
  ghost predicate FilledFrom(cnf: Cnf<string>, grid: Grid, g: Grid) {
    Shape(g) && Shape(grid)
    && (forall row, col, n :: 0 <= row < 9 && 0 <= col < 9 && 0 <= n < 10 && IsSet(cnf, row, col, n) ==> g[row][col] == n)
    && (forall row, col :: 0 <= row < 9 && 0 <= col < 9 && !HasValue(cnf, row, col) ==> g[row][col] == grid[row][col])
  }

  lemma ReadableTail(cnf: Cnf<string>)
    requires cnf != [] && Readable(cnf) && OneValuePerCell(cnf)
    ensures Readable(cnf[1..]) && OneValuePerCell(cnf[1..])
  {
    assert forall x :: x in cnf[1..] ==> x in cnf;
    forall row, col, n | IsSet(cnf[1..], row, col, n) ensures IsSet(cnf, row, col, n) { }
  }

  lemma FillSkipStep(cnf: Cnf<string>, grid: Grid, g: Grid)
    requires cnf != [] && |cnf[0]| == 1 && !cnf[0][0].positive
    requires FilledFrom(cnf[1..], grid, g)
    ensures FilledFrom(cnf, grid, g)
  {
    var tail := cnf[1..];
    assert forall x :: x in cnf <==> x == cnf[0] || x in tail;
    forall row, col, n | IsSet(cnf, row, col, n) ensures IsSet(tail, row, col, n) {
      assert [Lit(true, row, col, n)] != cnf[0];
    }
    forall row, col | HasValue(tail, row, col) ensures HasValue(cnf, row, col) {
      var m :| 0 <= m < 10 && IsSet(tail, row, col, m);
      assert IsSet(cnf, row, col, m);
    }
  }

  lemma FillWriteStep(cnf: Cnf<string>, grid: Grid, r0: int, c0: int, n0: int, g: Grid)
    requires Shape(grid) && 0 <= r0 < 9 && 0 <= c0 < 9 && 0 <= n0 < 10
    requires cnf != [] && cnf[0] == [Lit(true, r0, c0, n0)] && OneValuePerCell(cnf)
    requires FilledFrom(cnf[1..], grid[r0 := grid[r0][c0 := n0]], g)
    ensures FilledFrom(cnf, grid, g)
  {
    var tail := cnf[1..];
    assert forall x :: x in cnf <==> x == cnf[0] || x in tail;
    forall row, col, n | 0 <= row < 9 && 0 <= col < 9 && 0 <= n < 10 && IsSet(cnf, row, col, n)
      ensures g[row][col] == n
    {
      if !IsSet(tail, row, col, n) {
        NameInjective(row, col, n, r0, c0, n0);
        if HasValue(tail, row, col) {
          var m :| 0 <= m < 10 && IsSet(tail, row, col, m);
          assert IsSet(cnf, row, col, m);
        }
      }
    }
    assert IsSet(cnf, r0, c0, n0);
    forall row, col | 0 <= row < 9 && 0 <= col < 9 && !HasValue(cnf, row, col)
      ensures g[row][col] == grid[row][col]
    {
      if HasValue(tail, row, col) {
        var m :| 0 <= m < 10 && IsSet(tail, row, col, m);
        assert IsSet(cnf, row, col, m);
      }
      assert !(row == r0 && col == c0);
    }
  }

  /** Filling in readable unit clauses never fails: a cell set to a number
      gets that number and every other cell keeps its entry. */
  lemma {:induction false} FillFromCells(cnf: Cnf<string>, grid: Grid)
    requires Shape(grid) && Readable(cnf) && OneValuePerCell(cnf)
    ensures FillFrom(cnf, grid).Some? && FilledFrom(cnf, grid, FillFrom(cnf, grid).value)
    decreases |cnf|
  {
    if cnf != [] {
      ReadableTail(cnf);
      assert ReadableClause(cnf[0]);
      if !cnf[0][0].positive {
        FillFromCells(cnf[1..], grid);
        FillSkipStep(cnf, grid, FillFrom(cnf[1..], grid).value);
      } else {
        var r0, c0, n0 :| 0 <= r0 < 9 && 0 <= c0 < 9 && 0 <= n0 < 10 && cnf[0][0] == Lit(true, r0, c0, n0);
        assert cnf[0] == [Lit(true, r0, c0, n0)];
        DecodeNameOfName(r0, c0, n0);
        var grid' := grid[r0 := grid[r0][c0 := n0]];
        assert FillFrom(cnf, grid) == FillFrom(cnf[1..], grid');
        FillFromCells(cnf[1..], grid');
        FillWriteStep(cnf, grid, r0, c0, n0, FillFrom(cnf[1..], grid').value);
      }
    }
  }

  /** One unit clause per literal. */
  function UnitClauses(lits: seq<Literal<string>>): Cnf<string> {
    seq(|lits|, i requires 0 <= i < |lits| => [lits[i]])
  }

  /** A unit clause of the clues sets a cell only to its nonzero entry. */
  lemma ClueUnitsSetOnlyEntries(puzzle: Grid, row: int, col: int, n: int)
    requires Shape(puzzle) && 0 <= row < 9 && 0 <= col < 9 && 0 <= n < 10
    requires IsSet(UnitClauses(ClueLiterals(puzzle)), row, col, n)
    ensures puzzle[row][col] == n != 0
  {
    var clues := ClueLiterals(puzzle);
    var cnf := UnitClauses(clues);
    var i :| 0 <= i < |cnf| && cnf[i] == [Lit(true, row, col, n)];
    assert clues[i] in clues;
    ClueLiteralsSpec(puzzle);
    var r', c' :| 0 <= r' < 9 && 0 <= c' < 9 && puzzle[r'][c'] != 0 && clues[i] == Lit(true, r', c', puzzle[r'][c']);
    NameInjective(r', c', puzzle[r'][c'], row, col, n);
  }

  /** Every nonzero entry has its unit clause. */
  lemma ClueUnitsSetEveryEntry(puzzle: Grid, row: int, col: int)
    requires Shape(puzzle) && 0 <= row < 9 && 0 <= col < 9 && puzzle[row][col] != 0
    ensures IsSet(UnitClauses(ClueLiterals(puzzle)), row, col, puzzle[row][col])
  {
    var clues := ClueLiterals(puzzle);
    var l := Lit(true, row, col, puzzle[row][col]);
    ClueLiteralsSpec(puzzle);
    assert l in clues;
    var i :| 0 <= i < |clues| && clues[i] == l;
    assert UnitClauses(clues)[i] == [l];
  }

  /** The unit clauses of the clues set exactly the cells with a nonzero
      entry, each to its entry. */
  lemma ClueUnitsSet(puzzle: Grid, row: int, col: int, n: int)
    requires Shape(puzzle) && 0 <= row < 9 && 0 <= col < 9 && 0 <= n < 10
    ensures IsSet(UnitClauses(ClueLiterals(puzzle)), row, col, n) <==> puzzle[row][col] == n != 0
  {
    if IsSet(UnitClauses(ClueLiterals(puzzle)), row, col, n) {
      ClueUnitsSetOnlyEntries(puzzle, row, col, n);
    }
    if puzzle[row][col] == n != 0 {
      ClueUnitsSetEveryEntry(puzzle, row, col);
    }
  }

  lemma ClueUnitsReadable(puzzle: Grid)
    requires Shape(puzzle) && forall row, col :: 0 <= row < 9 && 0 <= col < 9 ==> 0 <= puzzle[row][col] < 10
    ensures Readable(UnitClauses(ClueLiterals(puzzle)))
  {
    var clues := ClueLiterals(puzzle);
    var cnf := UnitClauses(clues);
    ClueLiteralsSpec(puzzle);
    forall cl | cl in cnf ensures ReadableClause(cl) {
      var i :| 0 <= i < |cnf| && cnf[i] == cl;
      assert clues[i] in clues;
      var r', c' :| 0 <= r' < 9 && 0 <= c' < 9 && puzzle[r'][c'] != 0 && clues[i] == Lit(true, r', c', puzzle[r'][c']);
      assert cnf[i][0] == Lit(true, r', c', puzzle[r'][c']);
    }
  }

  lemma ClueUnitsOneValue(puzzle: Grid)
    requires Shape(puzzle)
    ensures OneValuePerCell(UnitClauses(ClueLiterals(puzzle)))
  {
    forall row, col, n, m | 0 <= row < 9 && 0 <= col < 9 && 0 <= n < m < 10
      ensures !(IsSet(UnitClauses(ClueLiterals(puzzle)), row, col, n) && IsSet(UnitClauses(ClueLiterals(puzzle)), row, col, m))
    {
      ClueUnitsSet(puzzle, row, col, n);
      ClueUnitsSet(puzzle, row, col, m);
    }
  }

  lemma ClueCell(puzzle: Grid, g: Grid, row: int, col: int)
    requires Shape(puzzle) && 0 <= row < 9 && 0 <= col < 9 && 0 <= puzzle[row][col] < 10
    requires FilledFrom(UnitClauses(ClueLiterals(puzzle)), EmptyGrid(), g)
    ensures g[row][col] == puzzle[row][col]
  {
    var cnf := UnitClauses(ClueLiterals(puzzle));
    if puzzle[row][col] != 0 {
      ClueUnitsSet(puzzle, row, col, puzzle[row][col]);
    } else {
      if HasValue(cnf, row, col) {
        var n :| 0 <= n < 10 && IsSet(cnf, row, col, n);
        ClueUnitsSet(puzzle, row, col, n);
      }
    }
  }

  /** Filling in the unit clauses of a puzzle's clues gives the puzzle back:
      reading a result inverts reading the clues. */
  lemma ClueRoundTrip(puzzle: Grid)
    requires Shape(puzzle) && forall row, col :: 0 <= row < 9 && 0 <= col < 9 ==> 0 <= puzzle[row][col] < 10
    ensures FillFrom(UnitClauses(ClueLiterals(puzzle)), EmptyGrid()) == Some(puzzle)
  {
    var cnf := UnitClauses(ClueLiterals(puzzle));
    ClueUnitsReadable(puzzle);
    ClueUnitsOneValue(puzzle);
    FillFromCells(cnf, EmptyGrid());
    var g := FillFrom(cnf, EmptyGrid()).value;
    forall row, col | 0 <= row < 9 && 0 <= col < 9 ensures g[row][col] == puzzle[row][col] {
      ClueCell(puzzle, g, row, col);
    }
    SameCells(g, puzzle);
  }

  lemma SameCells(g: Grid, h: Grid)
    requires Shape(g) && Shape(h)
    requires forall row, col :: 0 <= row < 9 && 0 <= col < 9 ==> g[row][col] == h[row][col]
    ensures g == h
  {
    forall row | 0 <= row < 9 ensures g[row] == h[row] {
      assert forall col :: 0 <= col < 9 ==> g[row][col] == h[row][col];
    }
  }

  // ---------------------------------------------------------------------------
  // What a solved state holds

  /** Row, column and number of name `i` of the 729, in the order of the
      loops of lines 37-39. */
  function NameOf(i: int): (int, int, int) {
    (i / 81, (i / 9) % 9, i % 9 + 1)
  }

  lemma NameOfInjective(i: int, j: int)
    requires 0 <= i < 729 && 0 <= j < 729 && NameOf(i) == NameOf(j)
    ensures i == j
  {
    assert i / 9 == 9 * (i / 81) + (i / 9) % 9;
    assert j / 9 == 9 * (j / 81) + (j / 9) % 9;
  }

  /** The unit clause for name `i` that a state covering every name holds:
      the negative one when present, the positive one otherwise. */
  function Witness(cnf: Cnf<string>, i: int): Clause<string> {
    var (row, col, n) := NameOf(i);
    if IsExcluded(cnf, row, col, n) then [Lit(false, row, col, n)] else [Lit(true, row, col, n)]
  }

  function Witnesses(cnf: Cnf<string>): seq<Clause<string>> {
    seq(729, i requires 0 <= i < 729 => Witness(cnf, i))
  }

  lemma WitnessShape(cnf: Cnf<string>, i: int)
    requires 0 <= i < 729
    ensures var (row, col, n) := NameOf(i);
      0 <= row < 9 && 0 <= col < 9 && 1 <= n <= 9
      && (Witness(cnf, i) == [Lit(false, row, col, n)] || Witness(cnf, i) == [Lit(true, row, col, n)])
  {
  }

  lemma WitnessesDistinct(cnf: Cnf<string>)
    ensures NoDuplicates(Witnesses(cnf))
  {
    var ws: seq<Clause<string>> := Witnesses(cnf);
    forall i, j | 0 <= i < j < |ws| ensures ws[i] != ws[j] {
      WitnessShape(cnf, i);
      WitnessShape(cnf, j);
      var (r1, c1, n1) := NameOf(i);
      var (r2, c2, n2) := NameOf(j);
      if ws[i] == ws[j] {
        assert ws[i][0].name == ws[j][0].name;
        NameInjective(r1, c1, n1, r2, c2, n2);
        NameOfInjective(i, j);
      }
    }
  }

  lemma WitnessesPresent(cnf: Cnf<string>)
    requires SolvedSpec(cnf)
    ensures forall x :: x in Witnesses(cnf) ==> x in cnf
  {
    var ws: seq<Clause<string>> := Witnesses(cnf);
    forall x | x in ws ensures x in cnf {
      var i :| 0 <= i < 729 && ws[i] == x;
      WitnessShape(cnf, i);
      var (row, col, n) := NameOf(i);
      assert Decided(cnf, row, col);
      assert IsSet(cnf, row, col, n) || IsExcluded(cnf, row, col, n);
    }
  }

  /** 729 distinct witnesses fit in 729 clauses only if every clause is a
      witness: a solved state holds nothing but one unit clause per name, so
      no name is both set and ruled out. */
  lemma SolvedClauses(cnf: Cnf<string>)
    requires SolvedSpec(cnf)
    ensures forall cl :: cl in cnf ==> exists i :: 0 <= i < 729 && cl == Witness(cnf, i)
    ensures forall row, col, n :: 0 <= row < 9 && 0 <= col < 9 && 1 <= n <= 9 ==>
      !(IsSet(cnf, row, col, n) && IsExcluded(cnf, row, col, n))
  {
    var ws: seq<Clause<string>> := Witnesses(cnf);
    WitnessesDistinct(cnf);
    WitnessesPresent(cnf);
    Pigeonhole(ws, cnf);
    forall cl | cl in cnf ensures exists i :: 0 <= i < 729 && cl == Witness(cnf, i) {
      var i :| 0 <= i < 729 && ws[i] == cl;
    }
    forall row, col, n | 0 <= row < 9 && 0 <= col < 9 && 1 <= n <= 9 && IsSet(cnf, row, col, n)
      ensures !IsExcluded(cnf, row, col, n)
    {
      var i :| 0 <= i < 729 && ws[i] == [Lit(true, row, col, n)];
      WitnessShape(cnf, i);
      var (r, c, m) := NameOf(i);
      NameInjective(row, col, n, r, c, m);
    }
  }

  /** In a solved state every set number lies in 1..9. */
  lemma SolvedSetRange(cnf: Cnf<string>)
    requires forall cl :: cl in cnf ==> exists i :: 0 <= i < 729 && cl == Witness(cnf, i)
    ensures forall row, col, n :: 0 <= row < 9 && 0 <= col < 9 && IsSet(cnf, row, col, n) ==> 1 <= n <= 9
  {
    forall row, col, n | 0 <= row < 9 && 0 <= col < 9 && IsSet(cnf, row, col, n) ensures 1 <= n <= 9 {
      var i :| 0 <= i < 729 && [Lit(true, row, col, n)] == Witness(cnf, i);
      WitnessShape(cnf, i);
      var (r, c, m) := NameOf(i);
      NameInjective(row, col, n, r, c, m);
    }
  }

  lemma SolvedReadable(cnf: Cnf<string>)
    requires SolvedSpec(cnf)
    requires forall cl :: cl in cnf ==> exists i :: 0 <= i < 729 && cl == Witness(cnf, i)
    ensures Readable(cnf) && OneValuePerCell(cnf)
  {
    forall cl | cl in cnf ensures ReadableClause(cl) {
      var i :| 0 <= i < 729 && cl == Witness(cnf, i);
      WitnessShape(cnf, i);
    }
    SolvedSetRange(cnf);
    forall row, col, n, m | 0 <= row < 9 && 0 <= col < 9 && 0 <= n < m < 10
      ensures !(IsSet(cnf, row, col, n) && IsSet(cnf, row, col, m))
    {
      assert Decided(cnf, row, col);
    }
  }

  /** A grid filled in from a solved state has a number in every cell. */
  lemma SolvedGridFilled(cnf: Cnf<string>, g: Grid)
    requires SolvedSpec(cnf) && FilledFrom(cnf, EmptyGrid(), g)
    ensures Filled(g)
  {
    forall row, col | 0 <= row < 9 && 0 <= col < 9 ensures 1 <= g[row][col] <= 9 {
      assert Decided(cnf, row, col);
      var n :| 1 <= n <= 9 && IsSet(cnf, row, col, n);
    }
  }

  /** The assignment of a grid filled in from a solved state satisfies the
      unit clause for entry `j`. */
  lemma SolvedWitnessHolds(cnf: Cnf<string>, g: Grid, j: int)
    requires SolvedSpec(cnf) && FilledFrom(cnf, EmptyGrid(), g) && 0 <= j < 729
    requires forall row, col, n :: 0 <= row < 9 && 0 <= col < 9 && 1 <= n <= 9 ==>
      !(IsSet(cnf, row, col, n) && IsExcluded(cnf, row, col, n))
    requires Witness(cnf, j) in cnf
    ensures Satisfies(GridTruth(g), Witness(cnf, j))
  {
    WitnessShape(cnf, j);
    var (row, col, n) := NameOf(j);
    var w := Witness(cnf, j);
    GridTruthMember(g, row, col, n);
    assert Decided(cnf, row, col);
    if IsExcluded(cnf, row, col, n) {
      var m :| 1 <= m <= 9 && IsSet(cnf, row, col, m);
      assert g[row][col] == m;
      assert Holds(GridTruth(g), w[0]);
    } else {
      assert IsSet(cnf, row, col, n);
      assert Holds(GridTruth(g), w[0]);
    }
  }

  /** The grid filled in from a solved state: every cell holds the number
      set for it, and that grid's assignment satisfies every clause. */
  lemma SolvedFill(cnf: Cnf<string>)
    requires SolvedSpec(cnf)
    ensures FillFrom(cnf, EmptyGrid()).Some?
    ensures Filled(FillFrom(cnf, EmptyGrid()).value)
    ensures Models(GridTruth(FillFrom(cnf, EmptyGrid()).value), cnf)
  {
    SolvedClauses(cnf);
    SolvedReadable(cnf);
    FillFromCells(cnf, EmptyGrid());
    var g := FillFrom(cnf, EmptyGrid()).value;
    SolvedGridFilled(cnf, g);
    forall i | 0 <= i < |cnf| ensures Satisfies(GridTruth(g), cnf[i]) {
      assert cnf[i] in cnf;
      var j :| 0 <= j < 729 && cnf[i] == Witness(cnf, j);
      SolvedWitnessHolds(cnf, g, j);
    }
  }

  // ---------------------------------------------------------------------------
  // The search (lines 82-117)

  /** An entry of `stackAddableUnitClauses`: an untried allocation and the
      clause list it is to be tried on. */
  datatype Checkpoint = Checkpoint(guess: Literal<string>, snapshot: Cnf<string>)

  /** `Solved` is the returned grid, `Unsolvable` the returned `[]`, `Crash`
      an exception, and `OutOfFuel` a search cut short by the bound the
      model puts on the loop. */
  datatype Outcome = Solved(grid: Grid) | Unsolvable | Crash | OutOfFuel

  /** Lines 115-116: the candidates after the first, each with a copy of the
      current clause list. */
  function Alternatives(f: Field, snapshot: Cnf<string>): seq<Checkpoint>
    requires f.candidates != []
  {
    seq(|f.candidates| - 1, i requires 0 <= i < |f.candidates| - 1 =>
      Checkpoint(Lit(true, f.row, f.col, f.candidates[i + 1]), snapshot))
  }

  /** The result of one round of the loop of lines 100-117: the answer, or
      the clause list and stack the next round starts from. */
  datatype Round = Done(outcome: Outcome) | Next(cnf: Cnf<string>, stack: seq<Checkpoint>)

  /** One round of the loop, with the result of lines 120-137 once the state
      is solved. With `[]` in the list the last checkpoint is popped and its
      guess propagated on its snapshot; otherwise the first candidate of the
      chosen field is propagated and the others are pushed. A missing field
      (`tmp[2]` on `None`) or an empty candidate list (`tmp[2][0]`)
      raises. */
  function Step(cnf: Cnf<string>, stack: seq<Checkpoint>): Round {
    if IsInSolvedState(cnf) then
      match FillFrom(cnf, EmptyGrid())
      case Some(g) => Done(Solved(g))
      case None => Done(Crash)
    else if [] in cnf && stack == [] then Done(Unsolvable)
    else if [] in cnf then
      var top := stack[|stack| - 1];
      Next(UnitResolutionForSet(top.snapshot, [top.guess]), stack[..|stack| - 1])
    else match GetUnallocatedField(cnf)
      case None => Done(Crash)
      case Some(f) =>
        if f.candidates == [] then Done(Crash)
        else Next(UnitResolutionForSet(cnf, [Lit(true, f.row, f.col, f.candidates[0])]), stack + Alternatives(f, cnf))
  }

  /** A loop whose rounds are `step`, from a round's result on, for at most
      `fuel` more rounds. */
  function Loop(step: (Cnf<string>, seq<Checkpoint>) -> Round, r: Round, fuel: nat): Outcome
    decreases fuel
  {
    match r
    case Done(outcome) => outcome
    case Next(cnf, stack) => if fuel == 0 then OutOfFuel else Loop(step, step(cnf, stack), fuel - 1)
  }

  /** The loop of lines 100-117 from a round's result on. */
  function Search(r: Round, fuel: nat): Outcome {
    Loop(Step, r, fuel)
  }

  /** `solveSudoku`, the search allowed `fuel` rounds of the loop. */
  function SolveSudoku(puzzle: Grid, fuel: nat): Outcome
    requires Shape(puzzle)
  {
    ClueLiteralsSpec(puzzle);
    Search(Next(UnitResolutionForSet(CreateSudokuCnf(), ClueLiterals(puzzle)), []), fuel)
  }

  // ---------------------------------------------------------------------------
  // Soundness and completeness

  /** An assignment that obeys the Sudoku rules and the clues. */
  ghost predicate Base(puzzle: Grid, truth: set<string>)
    requires Shape(puzzle)
  {
    RulesHold(truth) && AllHold(truth, ClueLiterals(puzzle))
  }

  /** Every model of `cnf` obeys the rules and the clues. */
  ghost predicate Sound(puzzle: Grid, cnf: Cnf<string>)
    requires Shape(puzzle)
  {
    forall truth :: Models(truth, cnf) ==> Base(puzzle, truth)
  }

  /** No assignment obeying the rules and the clues has been lost: it models
      the current list or a checkpoint with its guess. */
  ghost predicate Complete(puzzle: Grid, cnf: Cnf<string>, stack: seq<Checkpoint>)
    requires Shape(puzzle)
  {
    forall truth :: Base(puzzle, truth) ==>
      Models(truth, cnf)
      || exists i :: 0 <= i < |stack| && Holds(truth, stack[i].guess) && Models(truth, stack[i].snapshot)
  }

  ghost predicate AllSound(puzzle: Grid, stack: seq<Checkpoint>)
    requires Shape(puzzle)
  {
    forall i :: 0 <= i < |stack| ==> Sound(puzzle, stack[i].snapshot)
  }

  /** The clues hold in a grid's assignment exactly when the grid keeps them. */
  lemma CluesOnGrid(puzzle: Grid, g: Grid)
    requires Shape(puzzle) && Filled(g)
    ensures AllHold(GridTruth(g), ClueLiterals(puzzle)) <==> Extends(g, puzzle)
  {
    var clues := ClueLiterals(puzzle);
    ClueLiteralsSpec(puzzle);
    if AllHold(GridTruth(g), clues) {
      forall row, col | 0 <= row < 9 && 0 <= col < 9 && puzzle[row][col] != 0
        ensures g[row][col] == puzzle[row][col]
      {
        var v := puzzle[row][col];
        var i :| 0 <= i < |clues| && clues[i] == Lit(true, row, col, v);
        assert Name(row, col, v) in GridTruth(g);
        var r', c' :| 0 <= r' < 9 && 0 <= c' < 9 && Name(row, col, v) == Name(r', c', g[r'][c']);
        NameInjective(row, col, v, r', c', g[r'][c']);
      }
    }
    if Extends(g, puzzle) {
      forall i | 0 <= i < |clues| ensures Holds(GridTruth(g), clues[i]) {
        assert clues[i] in clues;
        var row, col :| 0 <= row < 9 && 0 <= col < 9 && puzzle[row][col] != 0 && clues[i] == Lit(true, row, col, puzzle[row][col]);
        assert Name(row, col, g[row][col]) in GridTruth(g);
      }
    }
  }

  /** A filled grid whose assignment models a sound list solves the puzzle. */
  lemma SoundGrid(puzzle: Grid, cnf: Cnf<string>, g: Grid)
    requires Shape(puzzle) && Sound(puzzle, cnf) && Filled(g) && Models(GridTruth(g), cnf)
    ensures IsSolution(g) && Extends(g, puzzle)
  {
    assert Base(puzzle, GridTruth(g));
    RulesHoldOnGrid(g);
    CluesOnGrid(puzzle, g);
  }

  /** A solved state whose models obey the rules and the clues is read off
      without error into a solution that keeps the clues. */
  lemma SolvedSound(puzzle: Grid, cnf: Cnf<string>)
    requires Shape(puzzle) && IsInSolvedState(cnf) && Sound(puzzle, cnf)
    ensures FillFrom(cnf, EmptyGrid()).Some?
    ensures IsSolution(FillFrom(cnf, EmptyGrid()).value) && Extends(FillFrom(cnf, EmptyGrid()).value, puzzle)
  {
    IsInSolvedStateSpec(cnf);
    SolvedFill(cnf);
    SoundGrid(puzzle, cnf, FillFrom(cnf, EmptyGrid()).value);
  }

  lemma PopSound(puzzle: Grid, top: Checkpoint)
    requires Shape(puzzle) && Sound(puzzle, top.snapshot)
    ensures Sound(puzzle, UnitResolutionForSet(top.snapshot, [top.guess]))
  {
    forall truth | Models(truth, UnitResolutionForSet(top.snapshot, [top.guess])) ensures Base(puzzle, truth) {
      UnitResolutionForSetModels(truth, top.snapshot, [top.guess]);
    }
  }

  /** A returned grid is a solution keeping the clues. */
  ghost predicate Trustworthy(puzzle: Grid, outcome: Outcome)
    requires Shape(puzzle)
  {
    outcome.Solved? ==> IsSolution(outcome.grid) && Extends(outcome.grid, puzzle)
  }

  /** A round's result is trustworthy, or it continues with sound lists. */
  ghost predicate SoundRound(puzzle: Grid, r: Round)
    requires Shape(puzzle)
  {
    match r
    case Done(outcome) => Trustworthy(puzzle, outcome)
    case Next(cnf, stack) => Sound(puzzle, cnf) && AllSound(puzzle, stack)
  }

  /** A round keeps every list it works on sound, and answers only with
      solutions. */
  lemma StepSound(puzzle: Grid, cnf: Cnf<string>, stack: seq<Checkpoint>)
    requires Shape(puzzle) && Sound(puzzle, cnf) && AllSound(puzzle, stack)
    ensures SoundRound(puzzle, Step(cnf, stack))
  {
    if IsInSolvedState(cnf) {
      SolvedSound(puzzle, cnf);
    } else if [] in cnf && stack != [] {
      PopStepSound(puzzle, stack);
    } else if [] !in cnf && GetUnallocatedField(cnf).Some? && GetUnallocatedField(cnf).value.candidates != [] {
      GuessSound(puzzle, cnf, stack, GetUnallocatedField(cnf).value);
    }
  }

  /** Popping a checkpoint leaves a sound list and a sound stack. */
  lemma PopStepSound(puzzle: Grid, stack: seq<Checkpoint>)
    requires Shape(puzzle) && AllSound(puzzle, stack) && stack != []
    ensures var top := stack[|stack| - 1];
      Sound(puzzle, UnitResolutionForSet(top.snapshot, [top.guess])) && AllSound(puzzle, stack[..|stack| - 1])
  {
    var top := stack[|stack| - 1];
    assert Sound(puzzle, top.snapshot);
    PopSound(puzzle, top);
  }

  /** Guessing the first candidate leaves a sound list, and the pushed
      alternatives are sound. */
  lemma GuessSound(puzzle: Grid, cnf: Cnf<string>, stack: seq<Checkpoint>, f: Field)
    requires Shape(puzzle) && Sound(puzzle, cnf) && AllSound(puzzle, stack) && f.candidates != []
    ensures Sound(puzzle, UnitResolutionForSet(cnf, [Lit(true, f.row, f.col, f.candidates[0])]))
    ensures AllSound(puzzle, stack + Alternatives(f, cnf))
  {
    PopSound(puzzle, Checkpoint(Lit(true, f.row, f.col, f.candidates[0]), cnf));
  }

  /** A property of rounds that every round keeps, and that running out of
      fuel has, holds of the loop's answer. */
  lemma {:induction false} LoopKeeps(step: (Cnf<string>, seq<Checkpoint>) -> Round, keep: Round -> bool, r: Round, fuel: nat)
    requires keep(r) && keep(Done(OutOfFuel))
    requires forall cnf, stack :: keep(Next(cnf, stack)) ==> keep(step(cnf, stack))
    ensures keep(Done(Loop(step, r, fuel)))
    decreases fuel
  {
    if r.Next? && fuel > 0 {
      LoopKeeps(step, keep, step(r.cnf, r.stack), fuel - 1);
    } else if r.Done? {
      assert r == Done(r.outcome);
    }
  }

  /** A search whose lists start sound answers only with solutions. */
  lemma SearchSound(puzzle: Grid, r: Round, fuel: nat)
    requires Shape(puzzle) && SoundRound(puzzle, r)
    ensures Trustworthy(puzzle, Search(r, fuel))
  {
    forall cnf, stack | SoundRound(puzzle, Next(cnf, stack)) ensures SoundRound(puzzle, Step(cnf, stack)) {
      StepSound(puzzle, cnf, stack);
    }
    LoopKeeps(Step, r => SoundRound(puzzle, r), r, fuel);
  }

  /** Every assignment obeying the rules sets some number in each cell. */
  lemma CellValue(truth: set<string>, row: int, col: int) returns (n: int)
    requires RulesHold(truth) && 0 <= row < 9 && 0 <= col < 9
    ensures 1 <= n <= 9 && Name(row, col, n) in truth
  {
    var g := CellGroup(row, col);
    assert GroupInGrid(g);
    var k :| 0 <= k < 9 && Letter(k) in Pre(truth, g);
    GroupNameCell(g, k);
    n := k + 1;
  }

  /** The chosen field lies on the grid and lists its candidates. */
  lemma ChosenField(cnf: Cnf<string>)
    requires GetUnallocatedField(cnf).Some?
    ensures var f := GetUnallocatedField(cnf).value;
      0 <= f.row < 9 && 0 <= f.col < 9 && f.candidates == Candidates(cnf, f.row, f.col)
  {
    GetUnallocatedFieldSpec(cnf);
    var k :| (FirstWithTwo(Opens(cnf), Counts(cnf), k) || FirstFewest(Opens(cnf), Counts(cnf), k))
      && GetUnallocatedField(cnf).value == FieldAt(cnf, k);
  }

  /** The number a model puts in the chosen field is one of its candidates. */
  lemma ModelCandidate(cnf: Cnf<string>, f: Field, truth: set<string>, n: int)
    requires Models(truth, cnf) && GetUnallocatedField(cnf) == Some(f)
    requires 1 <= n <= 9 && Name(f.row, f.col, n) in truth
    ensures n in f.candidates
  {
    ChosenField(cnf);
    if IsExcluded(cnf, f.row, f.col, n) {
      ModelsMember(truth, cnf, [Lit(false, f.row, f.col, n)]);
      assert false;
    }
    CandidatesSpec(cnf, f.row, f.col);
  }

  /** A guess loses no model: the number a model puts in the chosen field is
      one of its candidates, tried now or pushed for later. */
  lemma GuessComplete(cnf: Cnf<string>, f: Field, truth: set<string>)
    requires RulesHold(truth) && Models(truth, cnf)
    requires GetUnallocatedField(cnf) == Some(f) && f.candidates != []
    ensures Models(truth, UnitResolutionForSet(cnf, [Lit(true, f.row, f.col, f.candidates[0])]))
      || exists i :: 0 <= i < |Alternatives(f, cnf)|
           && Holds(truth, Alternatives(f, cnf)[i].guess) && Models(truth, Alternatives(f, cnf)[i].snapshot)
  {
    ChosenField(cnf);
    var n := CellValue(truth, f.row, f.col);
    ModelCandidate(cnf, f, truth, n);
    GuessOrAlternative(cnf, f, truth, n);
  }

  /** A model of `cnf` that puts candidate `n` in the field is kept by the
      first guess or by the checkpoint of `n`. */
  lemma GuessOrAlternative(cnf: Cnf<string>, f: Field, truth: set<string>, n: int)
    requires Models(truth, cnf) && n in f.candidates && Name(f.row, f.col, n) in truth
    ensures Models(truth, UnitResolutionForSet(cnf, [Lit(true, f.row, f.col, f.candidates[0])]))
      || exists i :: 0 <= i < |Alternatives(f, cnf)|
           && Holds(truth, Alternatives(f, cnf)[i].guess) && Models(truth, Alternatives(f, cnf)[i].snapshot)
  {
    var j :| 0 <= j < |f.candidates| && f.candidates[j] == n;
    var guess := Lit(true, f.row, f.col, n);
    assert Holds(truth, guess);
    if j == 0 {
      GuessKeepsModel(truth, cnf, guess);
    } else {
      var alts := Alternatives(f, cnf);
      assert alts[j - 1] == Checkpoint(guess, cnf);
      assert Holds(truth, alts[j - 1].guess) && Models(truth, alts[j - 1].snapshot);
    }
  }

  /** Unit resolution with a literal a model makes true keeps the model. */
  lemma GuessKeepsModel(truth: set<string>, cnf: Cnf<string>, guess: Literal<string>)
    requires Models(truth, cnf) && Holds(truth, guess)
    ensures Models(truth, UnitResolutionForSet(cnf, [guess]))
  {
    assert AllHold(truth, [guess]);
    UnitResolutionForSetModels(truth, cnf, [guess]);
  }

  lemma PopComplete(puzzle: Grid, cnf: Cnf<string>, stack: seq<Checkpoint>)
    requires Shape(puzzle) && Complete(puzzle, cnf, stack) && [] in cnf && stack != []
    ensures Complete(puzzle, UnitResolutionForSet(stack[|stack| - 1].snapshot, [stack[|stack| - 1].guess]), stack[..|stack| - 1])
  {
    var top := stack[|stack| - 1];
    var rest := stack[..|stack| - 1];
    forall truth | Base(puzzle, truth)
      ensures Models(truth, UnitResolutionForSet(top.snapshot, [top.guess]))
        || exists i :: 0 <= i < |rest| && Holds(truth, rest[i].guess) && Models(truth, rest[i].snapshot)
    {
      if Models(truth, cnf) {
        ModelsMember(truth, cnf, []);
        assert false;
      }
      var i :| 0 <= i < |stack| && Holds(truth, stack[i].guess) && Models(truth, stack[i].snapshot);
      if i == |stack| - 1 {
        UnitResolutionForSetModels(truth, top.snapshot, [top.guess]);
      } else {
        assert rest[i] == stack[i];
      }
    }
  }

  lemma PushComplete(puzzle: Grid, cnf: Cnf<string>, stack: seq<Checkpoint>, f: Field)
    requires Shape(puzzle) && Complete(puzzle, cnf, stack)
    requires GetUnallocatedField(cnf) == Some(f) && f.candidates != []
    ensures Complete(puzzle, UnitResolutionForSet(cnf, [Lit(true, f.row, f.col, f.candidates[0])]), stack + Alternatives(f, cnf))
  {
    var cnf' := UnitResolutionForSet(cnf, [Lit(true, f.row, f.col, f.candidates[0])]);
    var alts := Alternatives(f, cnf);
    var stack' := stack + alts;
    forall truth | Base(puzzle, truth)
      ensures Models(truth, cnf')
        || exists i :: 0 <= i < |stack'| && Holds(truth, stack'[i].guess) && Models(truth, stack'[i].snapshot)
    {
      if Models(truth, cnf) {
        GuessComplete(cnf, f, truth);
        if !Models(truth, cnf') {
          var i :| 0 <= i < |alts| && Holds(truth, alts[i].guess) && Models(truth, alts[i].snapshot);
          assert stack'[|stack| + i] == alts[i];
        }
      } else {
        var i :| 0 <= i < |stack| && Holds(truth, stack[i].guess) && Models(truth, stack[i].snapshot);
        assert stack'[i] == stack[i];
      }
    }
  }

  /** A round loses no assignment obeying the rules and the clues, and
      answers `[]` only when there is none. */
  lemma StepComplete(puzzle: Grid, cnf: Cnf<string>, stack: seq<Checkpoint>)
    requires Shape(puzzle) && Complete(puzzle, cnf, stack)
    ensures CompleteRound(puzzle, Step(cnf, stack))
  {
    if IsInSolvedState(cnf) {
    } else if [] in cnf && stack == [] {
      forall truth | Base(puzzle, truth) ensures false {
        if Models(truth, cnf) {
          ModelsMember(truth, cnf, []);
        }
      }
    } else if [] in cnf {
      PopComplete(puzzle, cnf, stack);
    } else if GetUnallocatedField(cnf).Some? && GetUnallocatedField(cnf).value.candidates != [] {
      PushComplete(puzzle, cnf, stack, GetUnallocatedField(cnf).value);
    }
  }

  /** A round reports unsolvability only when nothing obeys the rules and
      the clues, or continues with no such assignment lost. */
  ghost predicate CompleteRound(puzzle: Grid, r: Round)
    requires Shape(puzzle)
  {
    match r
    case Done(outcome) => outcome == Unsolvable ==> forall truth :: !Base(puzzle, truth)
    case Next(cnf, stack) => Complete(puzzle, cnf, stack)
  }

  /** A search that starts with no assignment obeying the rules and the
      clues lost answers "unsolvable" only when there is none. */
  lemma SearchComplete(puzzle: Grid, r: Round, fuel: nat)
    requires Shape(puzzle) && CompleteRound(puzzle, r)
    ensures Search(r, fuel) == Unsolvable ==> forall truth :: !Base(puzzle, truth)
  {
    forall cnf, stack | CompleteRound(puzzle, Next(cnf, stack)) ensures CompleteRound(puzzle, Step(cnf, stack)) {
      StepComplete(puzzle, cnf, stack);
    }
    LoopKeeps(Step, r => CompleteRound(puzzle, r), r, fuel);
  }

  /** A grid `solveSudoku` returns is a solution that keeps the clues. */
  lemma SolveSudokuSound(puzzle: Grid, fuel: nat)
    requires Shape(puzzle)
    ensures SolveSudoku(puzzle, fuel).Solved? ==>
      IsSolution(SolveSudoku(puzzle, fuel).grid) && Extends(SolveSudoku(puzzle, fuel).grid, puzzle)
  {
    ClueLiteralsSpec(puzzle);
    var cnf := UnitResolutionForSet(CreateSudokuCnf(), ClueLiterals(puzzle));
    forall truth | Models(truth, cnf) ensures Base(puzzle, truth) {
      UnitResolutionForSetModels(truth, CreateSudokuCnf(), ClueLiterals(puzzle));
      RulesHoldModels(truth);
    }
    SearchSound(puzzle, Next(cnf, []), fuel);
  }

  /** `solveSudoku` answers `[]` only when no solution keeps the clues. */
  lemma SolveSudokuComplete(puzzle: Grid, fuel: nat)
    requires Shape(puzzle)
    ensures SolveSudoku(puzzle, fuel) == Unsolvable ==>
      forall g :: IsSolution(g) ==> !Extends(g, puzzle)
  {
    ClueLiteralsSpec(puzzle);
    var cnf := UnitResolutionForSet(CreateSudokuCnf(), ClueLiterals(puzzle));
    forall truth | Base(puzzle, truth) ensures Models(truth, cnf) {
      UnitResolutionForSetModels(truth, CreateSudokuCnf(), ClueLiterals(puzzle));
      RulesHoldModels(truth);
    }
    SearchComplete(puzzle, Next(cnf, []), fuel);
    if SolveSudoku(puzzle, fuel) == Unsolvable {
      forall g | IsSolution(g) ensures !Extends(g, puzzle) {
        if Extends(g, puzzle) {
          RulesHoldOnGrid(g);
          CluesOnGrid(puzzle, g);
          assert Base(puzzle, GridTruth(g));
        }
      }
    }
  }
}

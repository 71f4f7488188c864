/** Sudoku grids, the rules a solution obeys, and how a grid corresponds to a
    truth assignment of the Sudoku CNF: the true names are exactly those of
    "cell (r, c) holds the number written there". */
module SudokuGrid {
  import opened Seqs
  import opened Logic
  import opened SudokuNames
  import opened SudokuCnf

  /** `list(list(int))`, row by row; 0 marks an empty cell. */
  type Grid = seq<seq<int>>

  predicate Shape(g: Grid) {
    |g| == 9 && forall r :: 0 <= r < 9 ==> |g[r]| == 9
  }

  /** Every cell holds one of 1..9. */
  predicate Filled(g: Grid) {
    Shape(g) && forall r, c :: 0 <= r < 9 && 0 <= c < 9 ==> 1 <= g[r][c] <= 9
  }

  function Column(g: Grid, c: int): seq<int>
    requires Shape(g) && 0 <= c < 9
  {
    seq(9, r requires 0 <= r < 9 => g[r][c])
  }

  /** Block `b` counts the 3x3 blocks row by row; its cells are listed row by
      row as well. */
  function BlockRow(b: int, k: int): int {
    3 * (b / 3) + k / 3
  }

  function BlockCol(b: int, k: int): int {
    3 * (b % 3) + k % 3
  }

  function Block(g: Grid, b: int): seq<int>
    requires Shape(g) && 0 <= b < 9
  {
    seq(9, k requires 0 <= k < 9 => g[BlockRow(b, k)][BlockCol(b, k)])
  }

  /** The rules of Sudoku: a filled grid whose rows, columns and blocks never
      repeat a number. */
  predicate IsSolution(g: Grid) {
    Filled(g)
    && forall i :: 0 <= i < 9 ==>
         NoDuplicates(g[i]) && NoDuplicates(Column(g, i)) && NoDuplicates(Block(g, i))
  }

  /** A solution keeps every number the puzzle gives. */
  predicate Extends(solution: Grid, puzzle: Grid)
    requires Shape(solution) && Shape(puzzle)
  {
    forall r, c :: 0 <= r < 9 && 0 <= c < 9 && puzzle[r][c] != 0 ==> solution[r][c] == puzzle[r][c]
  }

  // ---------------------------------------------------------------------------
  // Grids as truth assignments

  /** The names made true by the numbers written in the grid. */
  ghost function GridTruth(g: Grid): set<string>
    requires Shape(g)
  {
    set r, c | 0 <= r < 9 && 0 <= c < 9 :: Name(r, c, g[r][c])
  }

  lemma GridTruthMember(g: Grid, r: int, c: int, n: int)
    requires Shape(g) && 0 <= r < 9 && 0 <= c < 9 && 0 <= n < 10
    ensures Name(r, c, n) in GridTruth(g) <==> g[r][c] == n
  {
    if Name(r, c, n) in GridTruth(g) {
      var r', c' :| 0 <= r' < 9 && 0 <= c' < 9 && Name(r, c, n) == Name(r', c', g[r'][c']);
      NameInjective(r', c', g[r'][c'], r, c, n);
    }
  }

  /** Number `n` occurs exactly once in the nine entries `s`. */
  ghost predicate ExactlyOnce(s: seq<int>, n: int)
    requires |s| == 9
  {
    (exists k :: 0 <= k < 9 && s[k] == n)
    && forall k1, k2 :: 0 <= k1 < k2 < 9 ==> !(s[k1] == n && s[k2] == n)
  }

  /** Nine entries from 1..9 repeat none exactly when each number occurs
      once. */
  lemma LineRule(s: seq<int>)
    requires |s| == 9 && forall k :: 0 <= k < 9 ==> 1 <= s[k] <= 9
    ensures NoDuplicates(s) <==> forall n :: 1 <= n <= 9 ==> ExactlyOnce(s, n)
  {
    if NoDuplicates(s) {
      var digits := seq(9, k requires 0 <= k < 9 => k + 1);
      forall x | x in s ensures x in digits {
        assert digits[x - 1] == x;
      }
      Pigeonhole(s, digits);
      forall n | 1 <= n <= 9 ensures ExactlyOnce(s, n) {
        assert digits[n - 1] == n;
        assert n in s;
      }
    }
    if forall n :: 1 <= n <= 9 ==> ExactlyOnce(s, n) {
      forall i, j | 0 <= i < j < |s| ensures s[i] != s[j] {
        assert ExactlyOnce(s, s[i]);
      }
    }
  }

  /** Exactly one of the letters is true exactly when `n` occurs once in the
      nine entries whose letters are true. */
  lemma ExactlyOneLetterLine(p: set<char>, s: seq<int>, n: int)
    requires |s| == 9 && forall k :: 0 <= k < 9 ==> (Letter(k) in p <==> s[k] == n)
    ensures ExactlyOneLetter(p) <==> ExactlyOnce(s, n)
  {
  }

  /** Where letter `k` of group `grp` points inside the grid. */
  predicate GroupInGrid(grp: Group) {
    match grp
    case CellGroup(r, c) => 0 <= r < 9 && 0 <= c < 9
    case RowGroup(r, n) => 0 <= r < 9 && 1 <= n <= 9
    case ColGroup(c, n) => 0 <= c < 9 && 1 <= n <= 9
    case BlockGroup(b, n) => 0 <= b < 9 && 1 <= n <= 9
  }

  lemma PreOnGrid(g: Grid, grp: Group, k: int)
    requires Shape(g) && GroupInGrid(grp) && 0 <= k < 9
    ensures GroupOk(grp)
    ensures var (r, c, n) := GroupCell(grp, k);
      0 <= r < 9 && 0 <= c < 9 && (Letter(k) in Pre(GridTruth(g), grp) <==> g[r][c] == n)
  {
    var (r, c, n) := GroupCell(grp, k);
    assert GroupOk(grp) && 0 <= r < 9 && 0 <= c < 9 && 0 <= n < 10;
    PreMember(GridTruth(g), grp, k);
    GroupNameCell(grp, k);
    GridTruthMember(g, r, c, n);
  }

  lemma CellGroupOnGrid(g: Grid, r: int, c: int)
    requires Shape(g) && 0 <= r < 9 && 0 <= c < 9
    ensures GroupHolds(GridTruth(g), CellGroup(r, c)) <==> 1 <= g[r][c] <= 9
  {
    var s := seq(9, k requires 0 <= k < 9 => k + 1);
    forall k | 0 <= k < 9 ensures Letter(k) in Pre(GridTruth(g), CellGroup(r, c)) <==> s[k] == g[r][c] {
      PreOnGrid(g, CellGroup(r, c), k);
    }
    ExactlyOneLetterLine(Pre(GridTruth(g), CellGroup(r, c)), s, g[r][c]);
    if 1 <= g[r][c] <= 9 {
      assert s[g[r][c] - 1] == g[r][c];
    }
  }

  lemma RowGroupOnGrid(g: Grid, r: int, n: int)
    requires Shape(g) && 0 <= r < 9 && 1 <= n <= 9
    ensures GroupHolds(GridTruth(g), RowGroup(r, n)) <==> ExactlyOnce(g[r], n)
  {
    forall k | 0 <= k < 9 ensures Letter(k) in Pre(GridTruth(g), RowGroup(r, n)) <==> g[r][k] == n {
      PreOnGrid(g, RowGroup(r, n), k);
    }
    ExactlyOneLetterLine(Pre(GridTruth(g), RowGroup(r, n)), g[r], n);
  }

  lemma ColGroupOnGrid(g: Grid, c: int, n: int)
    requires Shape(g) && 0 <= c < 9 && 1 <= n <= 9
    ensures GroupHolds(GridTruth(g), ColGroup(c, n)) <==> ExactlyOnce(Column(g, c), n)
  {
    forall k | 0 <= k < 9 ensures Letter(k) in Pre(GridTruth(g), ColGroup(c, n)) <==> Column(g, c)[k] == n {
      PreOnGrid(g, ColGroup(c, n), k);
    }
    ExactlyOneLetterLine(Pre(GridTruth(g), ColGroup(c, n)), Column(g, c), n);
  }

  lemma BlockGroupOnGrid(g: Grid, b: int, n: int)
    requires Shape(g) && 0 <= b < 9 && 1 <= n <= 9
    ensures GroupHolds(GridTruth(g), BlockGroup(b, n)) <==> ExactlyOnce(Block(g, b), n)
  {
    forall k | 0 <= k < 9 ensures Letter(k) in Pre(GridTruth(g), BlockGroup(b, n)) <==> Block(g, b)[k] == n {
      PreOnGrid(g, BlockGroup(b, n), k);
    }
    ExactlyOneLetterLine(Pre(GridTruth(g), BlockGroup(b, n)), Block(g, b), n);
  }

  /** The groups of `__createSudokuCnf__`: every cell, and every row, column
      and block with every number. */
  lemma AllGroupsContents()
    ensures forall i :: 0 <= i < |AllGroups()| ==> GroupInGrid(AllGroups()[i])
    ensures forall r, c :: 0 <= r < 9 && 0 <= c < 9 ==> CellGroup(r, c) in AllGroups()
    ensures forall r, n :: 0 <= r < 9 && 1 <= n <= 9 ==> RowGroup(r, n) in AllGroups()
    ensures forall c, n :: 0 <= c < 9 && 1 <= n <= 9 ==> ColGroup(c, n) in AllGroups()
    ensures forall b, n :: 0 <= b < 9 && 1 <= n <= 9 ==> BlockGroup(b, n) in AllGroups()
  {
    var gs := AllGroups();
    assert |gs| == 324;
    forall r, c | 0 <= r < 9 && 0 <= c < 9 ensures CellGroup(r, c) in gs {
      assert gs[9 * r + c] == CellGroup(r, c);
    }
    forall r, n | 0 <= r < 9 && 1 <= n <= 9 ensures RowGroup(r, n) in gs {
      assert gs[81 + 9 * r + n - 1] == RowGroup(r, n);
    }
    forall c, n | 0 <= c < 9 && 1 <= n <= 9 ensures ColGroup(c, n) in gs {
      assert gs[162 + 9 * c + n - 1] == ColGroup(c, n);
    }
    forall b, n | 0 <= b < 9 && 1 <= n <= 9 ensures BlockGroup(b, n) in gs {
      assert gs[243 + 9 * b + n - 1] == BlockGroup(b, n);
    }
  }

  lemma SolutionGroupHolds(g: Grid, grp: Group)
    requires IsSolution(g) && GroupInGrid(grp)
    ensures GroupHolds(GridTruth(g), grp)
  {
    match grp
    case CellGroup(r, c) =>
      CellGroupOnGrid(g, r, c);
    case RowGroup(r, n) =>
      LineRule(g[r]);
      RowGroupOnGrid(g, r, n);
    case ColGroup(c, n) =>
      LineRule(Column(g, c));
      ColGroupOnGrid(g, c, n);
    case BlockGroup(b, n) =>
      LineRule(Block(g, b));
      BlockGroupOnGrid(g, b, n);
  }

  lemma GroupsHoldSolution(g: Grid)
    requires Filled(g)
    requires forall r, n :: 0 <= r < 9 && 1 <= n <= 9 ==> GroupHolds(GridTruth(g), RowGroup(r, n))
    requires forall c, n :: 0 <= c < 9 && 1 <= n <= 9 ==> GroupHolds(GridTruth(g), ColGroup(c, n))
    requires forall b, n :: 0 <= b < 9 && 1 <= n <= 9 ==> GroupHolds(GridTruth(g), BlockGroup(b, n))
    ensures IsSolution(g)
  {
    forall i | 0 <= i < 9
      ensures NoDuplicates(g[i]) && NoDuplicates(Column(g, i)) && NoDuplicates(Block(g, i))
    {
      forall n | 1 <= n <= 9
        ensures ExactlyOnce(g[i], n) && ExactlyOnce(Column(g, i), n) && ExactlyOnce(Block(g, i), n)
      {
        RowGroupOnGrid(g, i, n);
        ColGroupOnGrid(g, i, n);
        BlockGroupOnGrid(g, i, n);
      }
      LineRule(g[i]);
      LineRule(Column(g, i));
      LineRule(Block(g, i));
    }
  }

  /** The rules of Sudoku on an assignment: every group of the board has
      exactly one of its names true. */
  ghost predicate RulesHold(truth: set<string>) {
    forall grp :: GroupInGrid(grp) ==> GroupHolds(truth, grp)
  }

  /** The groups the CNF is built from are exactly the groups of the board. */
  lemma AllGroupsRules(truth: set<string>)
    ensures (forall i :: 0 <= i < |AllGroups()| ==> GroupHolds(truth, AllGroups()[i])) <==> RulesHold(truth)
  {
    var gs := AllGroups();
    AllGroupsContents();
    if forall i :: 0 <= i < |gs| ==> GroupHolds(truth, gs[i]) {
      forall grp | GroupInGrid(grp) ensures GroupHolds(truth, grp) {
        assert grp in gs;
      }
    }
  }

  /** The Sudoku CNF states the rules of Sudoku. */
  lemma RulesHoldModels(truth: set<string>)
    ensures Models(truth, CreateSudokuCnf()) <==> RulesHold(truth)
  {
    CreateSudokuCnfModels(truth);
    AllGroupsRules(truth);
  }

  /** A filled grid's assignment obeys the rules exactly when the grid is a
      solution. */
  lemma RulesHoldOnGrid(g: Grid)
    requires Filled(g)
    ensures RulesHold(GridTruth(g)) <==> IsSolution(g)
  {
    var truth := GridTruth(g);
    if IsSolution(g) {
      forall grp | GroupInGrid(grp) ensures GroupHolds(truth, grp) {
        SolutionGroupHolds(g, grp);
      }
    }
    if RulesHold(truth) {
      forall r, n | 0 <= r < 9 && 1 <= n <= 9 ensures GroupHolds(truth, RowGroup(r, n)) {
        assert GroupInGrid(RowGroup(r, n));
      }
      forall c, n | 0 <= c < 9 && 1 <= n <= 9 ensures GroupHolds(truth, ColGroup(c, n)) {
        assert GroupInGrid(ColGroup(c, n));
      }
      forall b, n | 0 <= b < 9 && 1 <= n <= 9 ensures GroupHolds(truth, BlockGroup(b, n)) {
        assert GroupInGrid(BlockGroup(b, n));
      }
      GroupsHoldSolution(g);
    }
  }

  /** A filled grid satisfies the Sudoku CNF exactly when it obeys the rules
      of Sudoku. */
  lemma CreateSudokuCnfOnGrid(g: Grid)
    requires Filled(g)
    ensures Models(GridTruth(g), CreateSudokuCnf()) <==> IsSolution(g)
  {
    RulesHoldModels(GridTruth(g));
    RulesHoldOnGrid(g);
  }
}

/** The Sudoku CNF (sudokuSolver.py, lines 221-362). `__generalCNF__` says
    "exactly one of the nine letters `a`..`i` is true"; `__createSudokuCnf__`
    renames its letters once for every cell (the cell holds exactly one
    number), every row, column and block and number (the number occurs
    exactly once there), and drops repeated clauses. */
module SudokuCnf {
  import opened Seqs
  import opened Logic
  import opened SudokuNames

  predicate IsLetter(ch: char) {
    'a' <= ch <= 'i'
  }

  /** The `k`-th letter, counting from `a` = 0. */
  function Letter(k: int): (ch: char)
    requires 0 <= k < 9
    ensures IsLetter(ch)
  {
    (97 + k) as char
  }

  function LetterIndex(ch: char): (k: int)
    requires IsLetter(ch)
    ensures 0 <= k < 9 && Letter(k) == ch
  {
    ch as int - 97
  }

  function NotBoth(x: char, y: char): Clause<char> {
    [Literal(false, x), Literal(false, y)]
  }

  /** `__generalCNF__` (lines 222-260): no two letters together, and one of
      them at least. */
  const GeneralCnf: Cnf<char> := [
    NotBoth('h', 'i'),
    NotBoth('g', 'i'), NotBoth('g', 'h'),
    NotBoth('f', 'i'), NotBoth('f', 'h'), NotBoth('f', 'g'),
    NotBoth('e', 'i'), NotBoth('e', 'h'), NotBoth('e', 'g'), NotBoth('e', 'f'),
    NotBoth('d', 'i'), NotBoth('d', 'h'), NotBoth('d', 'g'), NotBoth('d', 'f'), NotBoth('d', 'e'),
    NotBoth('c', 'i'), NotBoth('c', 'h'), NotBoth('c', 'g'), NotBoth('c', 'f'), NotBoth('c', 'e'),
    NotBoth('c', 'd'),
    NotBoth('b', 'i'), NotBoth('b', 'h'), NotBoth('b', 'g'), NotBoth('b', 'f'), NotBoth('b', 'e'),
    NotBoth('b', 'd'), NotBoth('b', 'c'),
    NotBoth('a', 'i'), NotBoth('a', 'h'), NotBoth('a', 'g'), NotBoth('a', 'f'), NotBoth('a', 'e'),
    NotBoth('a', 'd'), NotBoth('a', 'c'), NotBoth('a', 'b'),
    [Literal(true, 'a'), Literal(true, 'b'), Literal(true, 'c'), Literal(true, 'd'), Literal(true, 'e'),
     Literal(true, 'f'), Literal(true, 'g'), Literal(true, 'h'), Literal(true, 'i')]
  ]

  /** Exactly one of the letters is true. */
  ghost predicate ExactlyOneLetter(truth: set<char>) {
    (exists k :: 0 <= k < 9 && Letter(k) in truth)
    && forall k1, k2 :: 0 <= k1 < k2 < 9 ==> !(Letter(k1) in truth && Letter(k2) in truth)
  }

  lemma GeneralCnfPairs()
    ensures forall k1, k2 :: 0 <= k1 < k2 < 9 ==> NotBoth(Letter(k1), Letter(k2)) in GeneralCnf
  {
  }

  /** Every clause but the last forbids two distinct letters together. */
  lemma GeneralCnfShape()
    ensures |GeneralCnf| == 37
    ensures forall i :: 0 <= i < 36 ==>
      |GeneralCnf[i]| == 2 && !GeneralCnf[i][0].positive && !GeneralCnf[i][1].positive
      && IsLetter(GeneralCnf[i][0].name) && IsLetter(GeneralCnf[i][1].name)
      && GeneralCnf[i][0].name != GeneralCnf[i][1].name
    ensures GeneralCnf[36] == seq(9, k requires 0 <= k < 9 => Literal(true, Letter(k)))
  {
  }

  /** The shape `GeneralCnfShape` and `GeneralCnfPairs` establish. */
  ghost predicate ExactlyOneShape(cnf: Cnf<char>) {
    |cnf| == 37
    && (forall i :: 0 <= i < 36 ==>
          |cnf[i]| == 2 && !cnf[i][0].positive && !cnf[i][1].positive
          && IsLetter(cnf[i][0].name) && IsLetter(cnf[i][1].name) && cnf[i][0].name != cnf[i][1].name)
    && cnf[36] == seq(9, k requires 0 <= k < 9 => Literal(true, Letter(k)))
    && forall k1, k2 :: 0 <= k1 < k2 < 9 ==> NotBoth(Letter(k1), Letter(k2)) in cnf
  }

  lemma ExactlyOneShapeAtMost(truth: set<char>, cnf: Cnf<char>)
    requires ExactlyOneShape(cnf) && Models(truth, cnf)
    ensures forall k1, k2 :: 0 <= k1 < k2 < 9 ==> !(Letter(k1) in truth && Letter(k2) in truth)
  {
    forall k1, k2 | 0 <= k1 < k2 < 9 ensures !(Letter(k1) in truth && Letter(k2) in truth) {
      ModelsMember(truth, cnf, NotBoth(Letter(k1), Letter(k2)));
    }
  }

  lemma ExactlyOneShapePair(truth: set<char>, c: Clause<char>)
    requires |c| == 2 && !c[0].positive && !c[1].positive
    requires IsLetter(c[0].name) && IsLetter(c[1].name) && c[0].name != c[1].name
    requires forall k1, k2 :: 0 <= k1 < k2 < 9 ==> !(Letter(k1) in truth && Letter(k2) in truth)
    ensures Satisfies(truth, c)
  {
    if c[0].name !in truth {
      assert Holds(truth, c[0]);
    } else {
      var kx, ky := LetterIndex(c[0].name), LetterIndex(c[1].name);
      var lo, hi := if kx < ky then kx else ky, if kx < ky then ky else kx;
      assert !(Letter(lo) in truth && Letter(hi) in truth);
      assert Holds(truth, c[1]);
    }
  }

  lemma ExactlyOneShapeMeaning(truth: set<char>, cnf: Cnf<char>)
    requires ExactlyOneShape(cnf)
    ensures Models(truth, cnf) <==> ExactlyOneLetter(truth)
  {
    var last := cnf[36];
    if Models(truth, cnf) {
      assert Satisfies(truth, last);
      var j :| 0 <= j < |last| && Holds(truth, last[j]);
      assert Letter(j) in truth;
      ExactlyOneShapeAtMost(truth, cnf);
    }
    if ExactlyOneLetter(truth) {
      forall i | 0 <= i < |cnf| ensures Satisfies(truth, cnf[i]) {
        if i < 36 {
          ExactlyOneShapePair(truth, cnf[i]);
        } else {
          var k :| 0 <= k < 9 && Letter(k) in truth;
          assert Holds(truth, last[k]);
        }
      }
    }
  }

  /** The letter semantics of `__generalCNF__`: exactly one letter is true. */
  lemma GeneralCnfMeaning(truth: set<char>)
    ensures Models(truth, GeneralCnf) <==> ExactlyOneLetter(truth)
  {
    GeneralCnfShape();
    GeneralCnfPairs();
    ExactlyOneShapeMeaning(truth, GeneralCnf);
  }

  // ---------------------------------------------------------------------------
  // Renaming the letters

  /** The cells, rows, columns and blocks the letters are renamed for. */
  datatype Group =
    | CellGroup(row: int, col: int)
    | RowGroup(row: int, n: int)
    | ColGroup(col: int, n: int)
    | BlockGroup(block: int, n: int)

  /** `blocks` (lines 334-346): the cells of each 3x3 block, as row and column
      digits. */
  const BlockTable: seq<seq<string>> := [
    ["00", "01", "02", "10", "11", "12", "20", "21", "22"],
    ["03", "04", "05", "13", "14", "15", "23", "24", "25"],
    ["06", "07", "08", "16", "17", "18", "26", "27", "28"],
    ["30", "31", "32", "40", "41", "42", "50", "51", "52"],
    ["33", "34", "35", "43", "44", "45", "53", "54", "55"],
    ["36", "37", "38", "46", "47", "48", "56", "57", "58"],
    ["60", "61", "62", "70", "71", "72", "80", "81", "82"],
    ["63", "64", "65", "73", "74", "75", "83", "84", "85"],
    ["66", "67", "68", "76", "77", "78", "86", "87", "88"]
  ]

  predicate GroupOk(g: Group) {
    g.BlockGroup? ==> 0 <= g.block < 9
  }

  /** A row listing the nine cells of a block in reading order, the block's
      top-left cell being (`r0`, `c0`), names cell
      (`r0 + k / 3`, `c0 + k % 3`) at position `k`. */
  lemma BlockRowNames(row: seq<string>, r0: int, c0: int)
    requires 0 <= r0 <= 6 && 0 <= c0 <= 6
    requires row == [
      [DigitChar(r0), DigitChar(c0)], [DigitChar(r0), DigitChar(c0 + 1)], [DigitChar(r0), DigitChar(c0 + 2)],
      [DigitChar(r0 + 1), DigitChar(c0)], [DigitChar(r0 + 1), DigitChar(c0 + 1)], [DigitChar(r0 + 1), DigitChar(c0 + 2)],
      [DigitChar(r0 + 2), DigitChar(c0)], [DigitChar(r0 + 2), DigitChar(c0 + 1)], [DigitChar(r0 + 2), DigitChar(c0 + 2)]]
    ensures |row| == 9 && forall k :: 0 <= k < 9 ==> row[k] == [DigitChar(r0 + k / 3), DigitChar(c0 + k % 3)]
  {
  }

  /** Block `b`, letter `k` names the cell (3*(b/3) + k/3, 3*(b%3) + k%3). */
  lemma BlockTableCells()
    ensures |BlockTable| == 9
    ensures forall b, k :: 0 <= b < 9 && 0 <= k < 9 ==>
      |BlockTable[b]| == 9
      && BlockTable[b][k] == [DigitChar(3 * (b / 3) + k / 3), DigitChar(3 * (b % 3) + k % 3)]
  {
    forall b | 0 <= b < 9
      ensures |BlockTable[b]| == 9
      ensures forall k :: 0 <= k < 9 ==>
        BlockTable[b][k] == [DigitChar(3 * (b / 3) + k / 3), DigitChar(3 * (b % 3) + k % 3)]
    {
      BlockRowNames(BlockTable[b], 3 * (b / 3), 3 * (b % 3));
    }
  }

  /** The dictionaries `renameDict` (lines 271-281, 293-303, 314-324) and the
      entries of `blocks` followed by `"-" + str(n)` (line 351). */
  function GroupName(g: Group, ch: char): string
    requires GroupOk(g) && IsLetter(ch)
  {
    var k := LetterIndex(ch);
    match g
    case CellGroup(row, col) => Name(row, col, k + 1)
    case RowGroup(row, n) => Name(row, k, n)
    case ColGroup(col, n) => Name(k, col, n)
    case BlockGroup(b, n) => BlockTable[b][k] + "-" + Str(n)
  }

  /** Row, column and number of the name letter `k` stands for in group `g`. */
  function GroupCell(g: Group, k: int): (int, int, int)
    requires 0 <= k < 9
  {
    match g
    case CellGroup(row, col) => (row, col, k + 1)
    case RowGroup(row, n) => (row, k, n)
    case ColGroup(col, n) => (k, col, n)
    case BlockGroup(b, n) => (3 * (b / 3) + k / 3, 3 * (b % 3) + k % 3, n)
  }

  lemma GroupNameCell(g: Group, k: int)
    requires GroupOk(g) && 0 <= k < 9
    ensures GroupName(g, Letter(k)) == Name(GroupCell(g, k).0, GroupCell(g, k).1, GroupCell(g, k).2)
  {
    if g.BlockGroup? {
      BlockNameCell(g.block, g.n, k);
    }
  }

  lemma BlockNameCell(b: int, n: int, k: int)
    requires 0 <= b < 9 && 0 <= k < 9
    ensures GroupName(BlockGroup(b, n), Letter(k)) == Name(3 * (b / 3) + k / 3, 3 * (b % 3) + k % 3, n)
  {
    var r, c := 3 * (b / 3) + k / 3, 3 * (b % 3) + k % 3;
    assert BlockTable[b][k] == [DigitChar(r), DigitChar(c)] by {
      BlockTableCells();
    }
    assert BlockTable[b][k] == Str(r) + Str(c) by {
      StrDigit(r);
      StrDigit(c);
    }
    assert LetterIndex(Letter(k)) == k;
  }

  /** Every literal names a letter. */
  predicate LettersOnly(cnf: Cnf<char>) {
    forall i, j :: 0 <= i < |cnf| && 0 <= j < |cnf[i]| ==> IsLetter(cnf[i][j].name)
  }

  lemma GeneralCnfLetters()
    ensures LettersOnly(GeneralCnf)
  {
    GeneralCnfShape();
  }

  /** Lines 283-285: `(literal[0], renameDict[literal[1]])` for every literal. */
  function RenameClause(cl: Clause<char>, g: Group): Clause<string>
    requires GroupOk(g) && forall j :: 0 <= j < |cl| ==> IsLetter(cl[j].name)
  {
    seq(|cl|, j requires 0 <= j < |cl| => Literal(cl[j].positive, GroupName(g, cl[j].name)))
  }

  /** Lines 282-287: the renamed copy of every clause. */
  function RenameCnf(cnf: Cnf<char>, g: Group): Cnf<string>
    requires GroupOk(g) && LettersOnly(cnf)
  {
    seq(|cnf|, i requires 0 <= i < |cnf| => RenameClause(cnf[i], g))
  }

  /** The renamed copy of `__generalCNF__` for one group. */
  function GroupCnf(g: Group): (r: Cnf<string>)
    requires GroupOk(g)
    ensures |r| == |GeneralCnf|
  {
    GeneralCnfLetters();
    RenameCnf(GeneralCnf, g)
  }

  /** The renamed copies for the groups, one after the other. */
  function Expand(gs: seq<Group>): Cnf<string>
    requires forall i :: 0 <= i < |gs| ==> GroupOk(gs[i])
  {
    Flatten(seq(|gs|, i requires 0 <= i < |gs| => GroupCnf(gs[i])))
  }

  /** The lists one after the other. */
  function Flatten(parts: seq<Cnf<string>>): Cnf<string> {
    if parts == [] then [] else parts[0] + Flatten(parts[1..])
  }

  /** The groups in the order of the loops of lines 268-353. */
  function CellGroups(): seq<Group> {
    seq(81, k => CellGroup(k / 9, k % 9))
  }

  function RowGroups(): seq<Group> {
    seq(81, k => RowGroup(k / 9, k % 9 + 1))
  }

  function ColGroups(): seq<Group> {
    seq(81, k => ColGroup(k / 9, k % 9 + 1))
  }

  function BlockGroups(): seq<Group> {
    seq(81, k => BlockGroup(k / 9, k % 9 + 1))
  }

  function AllGroups(): seq<Group> {
    CellGroups() + RowGroups() + ColGroups() + BlockGroups()
  }

  lemma AllGroupsOk()
    ensures forall i :: 0 <= i < |AllGroups()| ==> GroupOk(AllGroups()[i])
  {
  }

  /** `__createSudokuCnf__`: all renamed copies, each clause kept once, in
      the order of first appearance (lines 356-362). */
  function CreateSudokuCnf(): (r: Cnf<string>)
    ensures NoDuplicates(r)
  {
    AllGroupsOk();
    DedupFirst(Expand(AllGroups()))
  }

  // ---------------------------------------------------------------------------
  // Shape of the Sudoku CNF

  /** A clause is in the joined lists exactly when one of them holds it. */
  lemma {:induction false} FlattenMembers(parts: seq<Cnf<string>>)
    ensures forall c :: c in Flatten(parts) <==> exists i :: 0 <= i < |parts| && c in parts[i]
  {
    if parts != [] {
      FlattenMembers(parts[1..]);
      forall c ensures c in Flatten(parts) <==> exists i :: 0 <= i < |parts| && c in parts[i] {
        if c in Flatten(parts[1..]) {
          var i :| 0 <= i < |parts[1..]| && c in parts[1..][i];
          assert parts[i + 1] == parts[1..][i];
        }
        if exists i :: 0 < i < |parts| && c in parts[i] {
          var i :| 0 < i < |parts| && c in parts[i];
          assert parts[1..][i - 1] == parts[i];
        }
      }
    }
  }

  /** The clauses of the joined copies are exactly the clauses of
      `__generalCNF__`, each renamed for one of the groups. */
  lemma ExpandMembers(gs: seq<Group>)
    requires forall i :: 0 <= i < |gs| ==> GroupOk(gs[i])
    ensures forall c :: c in Expand(gs) <==>
      exists i, k :: 0 <= i < |gs| && 0 <= k < |GeneralCnf| && c == GroupCnf(gs[i])[k]
  {
    var parts := seq(|gs|, i requires 0 <= i < |gs| => GroupCnf(gs[i]));
    FlattenMembers(parts);
    forall c ensures c in Expand(gs) <==>
      exists i, k :: 0 <= i < |gs| && 0 <= k < |GeneralCnf| && c == GroupCnf(gs[i])[k]
    {
      if c in Expand(gs) {
        var i :| 0 <= i < |parts| && c in parts[i];
        var k :| 0 <= k < |parts[i]| && parts[i][k] == c;
      }
      if exists i, k :: 0 <= i < |gs| && 0 <= k < |GeneralCnf| && c == GroupCnf(gs[i])[k] {
        var i, k :| 0 <= i < |gs| && 0 <= k < |GeneralCnf| && c == GroupCnf(gs[i])[k];
        assert c in parts[i];
      }
    }
  }

  /** Every clause of the Sudoku CNF is a clause of `__generalCNF__` with its
      letters renamed for one cell, row, column or block group, and every such
      renamed clause is in it. */
  lemma CreateSudokuCnfClauses()
    ensures forall i :: 0 <= i < |AllGroups()| ==> GroupOk(AllGroups()[i])
    ensures forall c :: c in CreateSudokuCnf() <==>
      exists i, k :: 0 <= i < |AllGroups()| && 0 <= k < |GeneralCnf| && c == GroupCnf(AllGroups()[i])[k]
  {
    AllGroupsOk();
    ExpandMembers(AllGroups());
  }

  /** The two kinds of clause `__generalCNF__` is made of. */
  predicate PairOrAll<N>(c: Clause<N>) {
    || (|c| == 2 && !c[0].positive && !c[1].positive)
    || (|c| == 9 && forall j :: 0 <= j < 9 ==> c[j].positive)
  }

  lemma GeneralClauseKind(k: int)
    requires 0 <= k < |GeneralCnf|
    ensures PairOrAll(GeneralCnf[k])
  {
    GeneralCnfShape();
  }

  /** Renaming keeps the length and the polarities, so the kind. */
  lemma GroupClauseKind(g: Group, k: int)
    requires GroupOk(g) && 0 <= k < |GeneralCnf|
    ensures PairOrAll(GroupCnf(g)[k])
  {
    GeneralCnfLetters();
    GeneralClauseKind(k);
    var c, d := GeneralCnf[k], GroupCnf(g)[k];
    assert d == RenameClause(c, g);
    assert |d| == |c| && forall j :: 0 <= j < |c| ==> d[j].positive == c[j].positive;
  }

  /** So the Sudoku CNF holds only two kinds of clause: two negative
      literals, or nine positive ones. */
  lemma CreateSudokuCnfShape()
    ensures forall c :: c in CreateSudokuCnf() ==> PairOrAll(c)
  {
    CreateSudokuCnfClauses();
    forall c | c in CreateSudokuCnf() ensures PairOrAll(c) {
      var i, k :| 0 <= i < |AllGroups()| && 0 <= k < |GeneralCnf| && c == GroupCnf(AllGroups()[i])[k];
      GroupClauseKind(AllGroups()[i], k);
    }
  }

  // ---------------------------------------------------------------------------
  // Meaning of the Sudoku CNF

  /** The letters whose renamed names are true. */
  ghost function Pre(truth: set<string>, g: Group): set<char>
    requires GroupOk(g)
  {
    set ch | 'a' <= ch <= 'i' && GroupName(g, ch) in truth
  }

  /** Letter `k` is true in a group exactly when the name it stands for is. */
  lemma PreMember(truth: set<string>, g: Group, k: int)
    requires GroupOk(g) && 0 <= k < 9
    ensures Letter(k) in Pre(truth, g) <==> GroupName(g, Letter(k)) in truth
  {
  }

  /** Exactly one of the nine names of the group is true. */
  ghost predicate GroupHolds(truth: set<string>, g: Group) {
    GroupOk(g) && ExactlyOneLetter(Pre(truth, g))
  }

  lemma RenameClauseSatisfies(truth: set<string>, cl: Clause<char>, g: Group)
    requires GroupOk(g) && forall j :: 0 <= j < |cl| ==> IsLetter(cl[j].name)
    ensures Satisfies(truth, RenameClause(cl, g)) <==> Satisfies(Pre(truth, g), cl)
  {
    var r := RenameClause(cl, g);
    forall j | 0 <= j < |cl| ensures Holds(truth, r[j]) <==> Holds(Pre(truth, g), cl[j]) {
    }
  }

  lemma RenameCnfModels(truth: set<string>, cnf: Cnf<char>, g: Group)
    requires GroupOk(g) && LettersOnly(cnf)
    ensures Models(truth, RenameCnf(cnf, g)) <==> Models(Pre(truth, g), cnf)
  {
    forall i | 0 <= i < |cnf|
      ensures Satisfies(truth, RenameCnf(cnf, g)[i]) <==> Satisfies(Pre(truth, g), cnf[i]) {
      RenameClauseSatisfies(truth, cnf[i], g);
    }
  }

  lemma GroupModels(truth: set<string>, g: Group)
    requires GroupOk(g)
    ensures Models(truth, GroupCnf(g)) <==> GroupHolds(truth, g)
  {
    GeneralCnfLetters();
    RenameCnfModels(truth, GeneralCnf, g);
    GeneralCnfMeaning(Pre(truth, g));
  }

  /** A model of the joined lists is a model of each of them. */
  lemma {:induction false} FlattenModels(truth: set<string>, parts: seq<Cnf<string>>)
    ensures Models(truth, Flatten(parts)) <==> forall i :: 0 <= i < |parts| ==> Models(truth, parts[i])
  {
    if parts != [] {
      FlattenModels(truth, parts[1..]);
      ModelsAppend(truth, parts[0], Flatten(parts[1..]));
      if forall i :: 0 <= i < |parts[1..]| ==> Models(truth, parts[1..][i]) {
        forall i | 0 < i < |parts| ensures Models(truth, parts[i]) {
          assert parts[i] == parts[1..][i - 1];
        }
      }
    }
  }

  lemma ExpandModels(truth: set<string>, gs: seq<Group>)
    requires forall i :: 0 <= i < |gs| ==> GroupOk(gs[i])
    ensures Models(truth, Expand(gs)) <==> forall i :: 0 <= i < |gs| ==> GroupHolds(truth, gs[i])
  {
    var parts := seq(|gs|, i requires 0 <= i < |gs| => GroupCnf(gs[i]));
    FlattenModels(truth, parts);
    forall i | 0 <= i < |gs| ensures Models(truth, parts[i]) <==> GroupHolds(truth, gs[i]) {
      GroupModels(truth, gs[i]);
    }
  }

  lemma DedupExpandModels(truth: set<string>, gs: seq<Group>)
    requires forall i :: 0 <= i < |gs| ==> GroupOk(gs[i])
    ensures Models(truth, DedupFirst(Expand(gs))) <==> forall i :: 0 <= i < |gs| ==> GroupHolds(truth, gs[i])
  {
    var e := Expand(gs);
    ExpandModels(truth, gs);
    SameElementsSameModels(truth, e, DedupFirst(e));
  }

  /** A truth assignment satisfies the Sudoku CNF exactly when every cell holds
      one number and every row, column and block holds every number once. */
  lemma CreateSudokuCnfModels(truth: set<string>)
    ensures Models(truth, CreateSudokuCnf()) <==>
      forall i :: 0 <= i < |AllGroups()| ==> GroupHolds(truth, AllGroups()[i])
  {
    AllGroupsOk();
    DedupExpandModels(truth, AllGroups());
  }
}

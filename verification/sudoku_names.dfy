/** The variable names of the Sudoku CNF (sudokuSolver.py): the name of "the
    cell in row `row`, column `col` holds `n`" is `str(row) + str(col) + "-" +
    str(n)`, and the solver reads a name back with `int(name[0])`,
    `int(name[1])` and `int(name[3])`. */
module SudokuNames {
  import opened Seqs

  /** The character of a decimal digit. */
  function DigitChar(d: nat): (ch: char)
    requires d < 10
    ensures '0' <= ch <= '9'
  {
    (48 + d) as char
  }

  /** Decimal digits of a non-negative number, most significant first. */
  function NatStr(n: nat): (r: string)
    decreases n
  {
    if n < 10 then [DigitChar(n)] else NatStr(n / 10) + [DigitChar(n % 10)]
  }

  /** Python's `str` on an integer. */
  function Str(i: int): string {
    if i < 0 then "-" + NatStr(-i) else NatStr(i)
  }

  /** The name of "cell (`row`, `col`) holds `n`". */
  function Name(row: int, col: int, n: int): string {
    Str(row) + Str(col) + "-" + Str(n)
  }

  /** Python's `int` on a one-character string; `None` stands for the
      `ValueError` it raises on anything but a digit. */
  function DigitValue(ch: char): (r: Option<int>)
    ensures r.Some? ==> 0 <= r.value < 10
  {
    if '0' <= ch <= '9' then Some(ch as int - 48) else None
  }

  /** `(int(name[0]), int(name[1]), int(name[3]))` as the result is filled in
      (sudokuSolver.py, line 136); `None` stands for the `IndexError` or
      `ValueError` Python raises. */
  function DecodeName(name: string): Option<(int, int, int)> {
    if |name| < 4 then None
    else match (DigitValue(name[0]), DigitValue(name[1]), DigitValue(name[3]))
      case (Some(r), Some(c), Some(n)) => Some((r, c, n))
      case _ => None
  }

  lemma StrDigit(d: int)
    requires 0 <= d < 10
    ensures Str(d) == [DigitChar(d)]
  {
  }

  /** A name built from single digits is the four characters one expects. */
  lemma NameOfDigits(row: int, col: int, n: int)
    requires 0 <= row < 10 && 0 <= col < 10 && 0 <= n < 10
    ensures Name(row, col, n) == [DigitChar(row), DigitChar(col), '-', DigitChar(n)]
  {
    StrDigit(row);
    StrDigit(col);
    StrDigit(n);
  }

  /** Only the digit `d` prints as that digit. */
  lemma StrOneDigit(v: int, d: int)
    requires 0 <= d < 10 && Str(v) == [DigitChar(d)]
    ensures v == d
  {
    StrShape(v);
    if 0 <= v < 10 {
      DigitCharInjective(v, d);
    }
  }

  /** Only a single digit prints as one character: a negative number starts
      with a minus sign and a number from 10 on takes two digits or more. */
  lemma StrShape(v: int)
    ensures |Str(v)| >= 1
    ensures v < 0 ==> Str(v)[0] == '-'
    ensures v >= 10 ==> |Str(v)| >= 2
    ensures 0 <= v < 10 ==> Str(v) == [DigitChar(v)]
  {
    if v >= 10 {
      assert |NatStr(v / 10)| >= 1;
    }
  }

  /** Reading a name back yields the cell and number it was built from. */
  lemma DecodeNameOfName(row: int, col: int, n: int)
    requires 0 <= row < 10 && 0 <= col < 10 && 0 <= n < 10
    ensures DecodeName(Name(row, col, n)) == Some((row, col, n))
  {
    NameOfDigits(row, col, n);
  }

  /** Different digits print differently. */
  lemma DigitCharInjective(a: int, b: int)
    requires 0 <= a < 10 && 0 <= b < 10 && DigitChar(a) == DigitChar(b)
    ensures a == b
  {
    assert DigitChar(a) as int == 48 + a && DigitChar(b) as int == 48 + b;
  }

  /** A name of a cell with single-digit coordinates starts with the two
      digits and a dash; the number follows. */
  lemma NameParts(row: int, col: int, v: int)
    requires 0 <= row < 10 && 0 <= col < 10
    ensures var s := Name(row, col, v);
      |s| >= 4 && s[0] == DigitChar(row) && s[1] == DigitChar(col) && s[2] == '-' && s[3..] == Str(v)
  {
    StrDigit(row);
    StrDigit(col);
    var s := Name(row, col, v);
    assert s == [DigitChar(row), DigitChar(col), '-'] + Str(v);
  }

  /** Names of cells with single-digit coordinates determine the cell,
      whatever integers the numbers were. */
  lemma NameCell(row: int, col: int, v: int, row': int, col': int, v': int)
    requires 0 <= row < 10 && 0 <= col < 10 && 0 <= row' < 10 && 0 <= col' < 10
    requires Name(row, col, v) == Name(row', col', v')
    ensures row == row' && col == col'
  {
    NameParts(row, col, v);
    NameParts(row', col', v');
    DigitCharInjective(row, row');
    DigitCharInjective(col, col');
  }

  /** Names of cells with single-digit coordinates determine the cell and the
      number, whatever integer the other one was built from. */
  lemma NameInjective(row: int, col: int, v: int, row': int, col': int, n': int)
    requires 0 <= row < 10 && 0 <= col < 10
    requires 0 <= row' < 10 && 0 <= col' < 10 && 0 <= n' < 10
    requires Name(row, col, v) == Name(row', col', n')
    ensures row == row' && col == col' && v == n'
  {
    NameCell(row, col, v, row', col', n');
    NameParts(row, col, v);
    NameParts(row', col', n');
    StrDigit(n');
    StrOneDigit(v, n');
  }
}

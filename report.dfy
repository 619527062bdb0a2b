/** The end-of-game text snapshot of the board written to last_game.txt. */
module Report {

  function DigitChar(d: int): (ch: char)
    requires 0 <= d < 10
    ensures '0' <= ch <= '9'
  {
    ('0' as int + d) as char
  }

  /** Python's str(n) for n >= 0: decimal digits, no leading zero. */
  function Digits(n: nat): (s: string)
    ensures |s| >= 1
    ensures forall k :: 0 <= k < |s| ==> '0' <= s[k] <= '9'
    ensures s[0] == '0' ==> n == 0
    ensures n < 10 <==> |s| == 1
  {
    if n < 10 then [DigitChar(n)] else Digits(n / 10) + [DigitChar(n % 10)]
  }

  /** Reading a digit string back as a number. */
  function ParseDigits(s: string): nat
    requires forall k :: 0 <= k < |s| ==> '0' <= s[k] <= '9'
  {
    if |s| == 0 then 0 else ParseDigits(s[..|s| - 1]) * 10 + (s[|s| - 1] as int - '0' as int)
  }

  /** str is injective on naturals: its digits read back as the number. */
  lemma {:induction false} DigitsRoundTrip(n: nat)
    ensures ParseDigits(Digits(n)) == n
  {
    if n >= 10 {
      var s := Digits(n);
      assert s[..|s| - 1] == Digits(n / 10);
      DigitsRoundTrip(n / 10);
    }
  }

  /** Python's str(x) for any integer x. */
  function Str(x: int): (s: string)
    ensures |s| >= 1
    ensures s[0] == '-' <==> x < 0
    ensures forall k :: 0 < k < |s| ==> '0' <= s[k] <= '9'
  {
    if x < 0 then "-" + Digits(-x) else Digits(x)
  }

  /**
   * The text written for one cell value: "+" for a mine, " " for 0 and the
   * decimal number otherwise. The three kinds never produce the same text.
   */
  function CellText(x: int): (t: string)
    ensures |t| >= 1 && '\n' !in t
    ensures t == "+" <==> x == -1
    ensures t == " " <==> x == 0
    ensures -1 <= x <= 9 ==> |t| == 1
  {
    if x == -1 then "+" else if x == 0 then " " else Str(x)
  }

  /** Decoding the character written for a single-character cell. */
  function GlyphValue(ch: char): int
  {
    if ch == '+' then -1
    else if '0' <= ch <= '9' then ch as int - '0' as int
    else 0
  }

  lemma GlyphRoundTrip(x: int)
    requires -1 <= x <= 9
    ensures GlyphValue(CellText(x)[0]) == x
  {
  }

  /** One row's text: each cell's text followed by a space. */
  function LineText(row: seq<int>): string
  {
    if |row| == 0 then "" else LineText(row[..|row| - 1]) + CellText(row[|row| - 1]) + " "
  }

  /** The whole snapshot: each row's line ended by a newline. */
  function ReportText(rows: seq<seq<int>>): string
  {
    if |rows| == 0 then "" else ReportText(rows[..|rows| - 1]) + LineText(rows[|rows| - 1]) + "\n"
  }

  /** The board as the list of its rows. */
  ghost function Rows(grid: array2<int>): (rows: seq<seq<int>>)
    reads grid
    ensures |rows| == grid.Length0
    ensures forall i :: 0 <= i < grid.Length0 ==> |rows[i]| == grid.Length1
    ensures forall i, j :: 0 <= i < grid.Length0 && 0 <= j < grid.Length1 ==> rows[i][j] == grid[i, j]
  {
    seq(grid.Length0, i requires 0 <= i < grid.Length0 reads grid =>
      seq(grid.Length1, j requires 0 <= j < grid.Length1 reads grid => grid[i, j]))
  }

  /** Writing one more cell of a row. */
  lemma LineStep(row: seq<int>, j: nat)
    requires j < |row|
    ensures LineText(row[..j + 1]) == LineText(row[..j]) + CellText(row[j]) + " "
  {
    assert row[..j + 1][..j] == row[..j];
  }

  /** Writing one more row. */
  lemma ReportStep(rows: seq<seq<int>>, i: nat)
    requires i < |rows|
    ensures ReportText(rows[..i + 1]) == ReportText(rows[..i]) + LineText(rows[i]) + "\n"
  {
    assert rows[..i + 1][..i] == rows[..i];
  }

  /**
   * The writing loops of game_win / game_loss, collecting the text instead of
   * writing a file; line holds what the inner loop has written of row i.
   */
  method WriteReport(grid: array2<int>) returns (s: string)
    ensures s == ReportText(Rows(grid))
  {
    ghost var rows := Rows(grid);
    s := "";
    for i := 0 to grid.Length0
      invariant s == ReportText(rows[..i])
    {
      ghost var row := rows[i];
      var line := "";
      for j := 0 to grid.Length1
        invariant line == LineText(row[..j])
      {
        LineStep(row, j);
        line := line + CellText(grid[i, j]) + " ";
      }
      assert row[..grid.Length1] == row;
      ReportStep(rows, i);
      s := s + line + "\n";
    }
    assert rows[..grid.Length0] == rows;
  }

  /** Every row has cols cells and every cell a value whose text is one character (a finished board holds -1..8). */
  ghost predicate SingleGlyphs(rows: seq<seq<int>>, cols: nat)
  {
    forall i :: 0 <= i < |rows| ==> |rows[i]| == cols && forall j :: 0 <= j < cols ==> -1 <= rows[i][j] <= 9
  }

  lemma NoneInConcat<T>(a: seq<T>, b: seq<T>, c: seq<T>, x: T)
    requires x !in a && x !in b && x !in c
    ensures x !in a + b + c
  {
  }

  /** With one-character cells a row of n cells takes 2 * n characters. */
  lemma {:induction false} LineLength(row: seq<int>)
    requires forall j :: 0 <= j < |row| ==> -1 <= row[j] <= 9
    ensures |LineText(row)| == 2 * |row|
  {
    if |row| > 0 {
      LineLength(row[..|row| - 1]);
    }
  }

  /** With one-character cells, cell j of the row is written at 2 * j and a space follows it. */
  lemma {:induction false} LineCell(row: seq<int>, j: nat)
    requires forall k :: 0 <= k < |row| ==> -1 <= row[k] <= 9
    requires j < |row|
    ensures |LineText(row)| == 2 * |row|
    ensures LineText(row)[2 * j] == CellText(row[j])[0]
    ensures LineText(row)[2 * j + 1] == ' '
  {
    var init := row[..|row| - 1];
    LineLength(init);
    assert |CellText(row[|row| - 1])| == 1;
    if j < |row| - 1 {
      LineCell(init, j);
    }
  }

  /** A line holds no newline, whatever the cell values. */
  lemma {:induction false} LineNoNewline(row: seq<int>)
    ensures '\n' !in LineText(row)
  {
    if |row| > 0 {
      LineNoNewline(row[..|row| - 1]);
      NoneInConcat(LineText(row[..|row| - 1]), CellText(row[|row| - 1]), " ", '\n');
    }
  }

  /** Where line i starts: each earlier line takes 2 * cols characters and its newline. */
  function LineStart(cols: nat, i: nat): nat
  {
    if i == 0 then 0 else LineStart(cols, i - 1) + 2 * cols + 1
  }

  lemma {:induction false} LineStartClosedForm(cols: nat, i: nat)
    ensures LineStart(cols, i) == i * (2 * cols + 1)
  {
    if i > 0 {
      LineStartClosedForm(cols, i - 1);
      assert i * (2 * cols + 1) == (i - 1) * (2 * cols + 1) + 2 * cols + 1;
    }
  }

  /** With one-character cells the report of m rows takes LineStart(cols, m) characters. */
  lemma {:induction false} ReportLength(rows: seq<seq<int>>, cols: nat)
    requires SingleGlyphs(rows, cols)
    ensures |ReportText(rows)| == LineStart(cols, |rows|)
  {
    if |rows| > 0 {
      ReportLength(rows[..|rows| - 1], cols);
      LineLength(rows[|rows| - 1]);
    }
  }

  /**
   * One line per row: with one-character cells, row i is written as
   * LineText(rows[i]) from LineStart(cols, i) on, and the newline ending it
   * follows directly.
   */
  lemma {:induction false} ReportLine(rows: seq<seq<int>>, cols: nat, i: nat)
    requires SingleGlyphs(rows, cols) && i < |rows|
    ensures LineStart(cols, i) + 2 * cols < |ReportText(rows)|
    ensures ReportText(rows)[LineStart(cols, i) .. LineStart(cols, i) + 2 * cols] == LineText(rows[i])
    ensures ReportText(rows)[LineStart(cols, i) + 2 * cols] == '\n'
  {
    var init := rows[..|rows| - 1];
    SingleGlyphsInit(rows, cols);
    var prev, line := ReportText(init), LineText(rows[|rows| - 1]);
    assert ReportText(rows) == prev + (line + "\n");
    if i < |rows| - 1 {
      ReportLine(init, cols, i);
      Extend(prev, line + "\n", LineStart(cols, i), LineStart(cols, i) + 2 * cols);
    } else {
      LineLength(rows[i]);
      ReportLength(init, cols);
      Middle(prev, line, "\n");
    }
  }

  /** Dropping the last row keeps every remaining row single-character. */
  lemma SingleGlyphsInit(rows: seq<seq<int>>, cols: nat)
    requires SingleGlyphs(rows, cols) && |rows| > 0
    ensures SingleGlyphs(rows[..|rows| - 1], cols)
  {
    var init := rows[..|rows| - 1];
    forall i | 0 <= i < |init| ensures init[i] == rows[i] {
    }
  }

  lemma Middle<T>(a: seq<T>, b: seq<T>, c: seq<T>)
    requires |c| > 0
    ensures (a + (b + c))[|a| .. |a| + |b|] == b && (a + (b + c))[|a| + |b|] == c[0]
  {
    assert (a + (b + c))[|a| .. |a| + |b|] == (b + c)[..|b|];
  }

  /** Appending to a sequence leaves its slices and elements as they were. */
  lemma Extend<T>(a: seq<T>, b: seq<T>, lo: int, hi: int)
    requires 0 <= lo <= hi < |a|
    ensures (a + b)[lo..hi] == a[lo..hi] && (a + b)[hi] == a[hi]
  {
  }

  /** No newline falls inside a line: the newlines of the report are exactly the line ends. */
  lemma ReportLineNoNewline(rows: seq<seq<int>>, cols: nat, i: nat, k: nat)
    requires SingleGlyphs(rows, cols) && i < |rows| && k < 2 * cols
    ensures LineStart(cols, i) + k < |ReportText(rows)|
    ensures ReportText(rows)[LineStart(cols, i) + k] != '\n'
  {
    var lo, t := LineStart(cols, i), ReportText(rows);
    ReportLine(rows, cols, i);
    LineNoNewline(rows[i]);
    assert t[lo + k] == t[lo .. lo + 2 * cols][k];
  }

  /** Where the character of cell (i, j) stands in the snapshot of a board with cols columns. */
  function CellPos(cols: nat, i: nat, j: nat): nat
  {
    i * (2 * cols + 1) + 2 * j
  }

  /** The snapshot reads back: the character at CellPos(cols, i, j) decodes to the value of cell (i, j). */
  lemma ReportReadsBack(rows: seq<seq<int>>, cols: nat, i: nat, j: nat)
    requires SingleGlyphs(rows, cols) && i < |rows| && j < cols
    ensures CellPos(cols, i, j) < |ReportText(rows)|
    ensures GlyphValue(ReportText(rows)[CellPos(cols, i, j)]) == rows[i][j]
  {
    ReportLine(rows, cols, i);
    LineCell(rows[i], j);
    LineStartClosedForm(cols, i);
    var lo, t := LineStart(cols, i), ReportText(rows);
    assert t[lo + 2 * j] == t[lo .. lo + 2 * cols][2 * j];
    GlyphRoundTrip(rows[i][j]);
  }
}

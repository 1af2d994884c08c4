/** The output formats of `ems_show` and `ems_list_events`: decimal numbers as `%u` prints
    them into a ten-byte buffer, a seat grid as lines of space-separated numbers, and the
    event list as "Event: <id>" lines or the text "No events". Each format comes with the
    parser that reads it back, and the lemmas that the parser recovers what was printed. */
module Text {
  import opened Helpers

  // ---------------------------------------------------------------------------
  // Decimal numbers.
  // ---------------------------------------------------------------------------

  function DigitChar(d: nat): char
    requires d < 10
  {
    ('0' as int + d) as char
  }

  function DigitValue(ch: char): nat {
    if '0' <= ch <= '9' then ch as int - '0' as int else 0
  }

  predicate IsDigits(s: string) {
    forall i :: 0 <= i < |s| ==> '0' <= s[i] <= '9'
  }

  /** The decimal text of v, as `%u` prints it: at least one digit and no leading zero. */
  function Decimal(v: nat): (s: string)
    ensures |s| >= 1 && IsDigits(s)
    ensures |s| > 1 ==> s[0] != '0'
  {
    if v < 10 then [DigitChar(v)] else Decimal(v / 10) + [DigitChar(v % 10)]
  }

  /** The value of a string of decimal digits. */
  function ParseDecimal(s: string): nat {
    if s == [] then 0 else ParseDecimal(s[..|s| - 1]) * 10 + DigitValue(s[|s| - 1])
  }

  /** Reading back the printed decimal text gives the number. */
  lemma {:induction false} DecimalRoundTrip(v: nat)
    ensures ParseDecimal(Decimal(v)) == v
  {
    if v >= 10 {
      DecimalRoundTrip(v / 10);
      var s := Decimal(v);
      assert s == Decimal(v / 10) + [DigitChar(v % 10)];
      assert s[..|s| - 1] == Decimal(v / 10);
      assert DigitValue(s[|s| - 1]) == v % 10;
      assert v == (v / 10) * 10 + v % 10;
    } else {
      assert Decimal(v) == [DigitChar(v)];
      assert Decimal(v)[..0] == [];
    }
  }

  function Pow10(k: nat): nat {
    if k == 0 then 1 else 10 * Pow10(k - 1)
  }

  /** A number below 10^k has at most k digits, and one of at least 10^k has more. */
  lemma {:induction false} DecimalLength(v: nat, k: nat)
    requires k >= 1
    ensures |Decimal(v)| <= k <==> v < Pow10(k)
  {
    if v >= 10 {
      if k == 1 {
        assert Pow10(1) == 10;
        assert |Decimal(v)| == |Decimal(v / 10)| + 1;
      } else {
        DecimalLength(v / 10, k - 1);
      }
    } else {
      PowAtLeastTen(k);
    }
  }

  lemma {:induction false} PowAtLeastTen(k: nat)
    requires k >= 1
    ensures Pow10(k) >= 10
  {
    if k > 1 {
      PowAtLeastTen(k - 1);
    }
  }

  /** Room for digits in the ten-byte `smallBuffer` once its terminating zero byte is placed. */
  const CellWidth: nat := 9

  /** What `snprintf(smallBuffer, 10, "%u", v)` leaves in the buffer: the decimal text of v,
      cut to its first nine characters. */
  function Cell(v: nat): string {
    var d := Decimal(v);
    if |d| <= CellWidth then d else d[..CellWidth]
  }

  /** A cell is the longest prefix of the decimal text that fits the buffer: either the
      whole text, or nine characters of it. */
  lemma CellPrefix(v: nat)
    ensures 1 <= |Cell(v)| <= CellWidth && |Cell(v)| <= |Decimal(v)|
    ensures Cell(v) == Decimal(v)[..|Cell(v)|]
    ensures |Cell(v)| == |Decimal(v)| || |Cell(v)| == CellWidth
  {
  }

  /** Below 10^9 nothing is cut: the cell is the decimal text, and it reads back as v. */
  lemma CellExact(v: nat)
    requires v < 1000000000
    ensures Cell(v) == Decimal(v)
    ensures ParseDecimal(Cell(v)) == v
  {
    assert Pow10(9) == 1000000000;
    DecimalLength(v, 9);
    DecimalRoundTrip(v);
  }

  /** From 10^9 on the cell has exactly nine digits and no longer determines the value:
      1000000000 and 1000000001 print the same. */
  lemma CellTruncates()
    ensures Cell(1000000000) == Cell(1000000001) == "100000000"
  {
    var d := DecimalOneZeros(8);
    assert Pow10(8) == 100000000;
    assert d == "100000000";
    DecimalAppend(100000000, 0);
    DecimalAppend(100000000, 1);
  }

  /** Appending a digit to a positive number appends its character to the text. */
  lemma DecimalAppend(v: nat, digit: nat)
    requires v >= 1 && digit < 10
    ensures Decimal(10 * v + digit) == Decimal(v) + [DigitChar(digit)]
  {
    assert (10 * v + digit) / 10 == v && (10 * v + digit) % 10 == digit;
  }

  /** The text of 10^k is a one followed by k zeros. */
  lemma {:induction false} DecimalOneZeros(k: nat) returns (d: string)
    ensures d == Decimal(Pow10(k)) && |d| == k + 1 && d[0] == '1'
    ensures forall i :: 1 <= i < |d| ==> d[i] == '0'
  {
    if k == 0 {
      d := "1";
    } else {
      var d' := DecimalOneZeros(k - 1);
      PowPositive(k - 1);
      DecimalAppend(Pow10(k - 1), 0);
      d := d' + "0";
    }
  }

  lemma {:induction false} PowPositive(k: nat)
    ensures Pow10(k) >= 1
  {
    if k > 0 {
      PowPositive(k - 1);
    }
  }

  lemma CellIsDigits(v: nat)
    ensures IsDigits(Cell(v)) && |Cell(v)| >= 1
  {
  }

  // ---------------------------------------------------------------------------
  // Joining with a separator, splitting at a separator, lines.
  // ---------------------------------------------------------------------------

  /** The pieces with one separator character between neighbours. */
  function Join(ps: seq<string>, sep: char): string {
    if |ps| == 0 then ""
    else if |ps| == 1 then ps[0]
    else ps[0] + [sep] + Join(ps[1..], sep)
  }

  lemma {:induction false} JoinSnoc(ps: seq<string>, x: string, sep: char)
    requires |ps| >= 1
    ensures Join(ps + [x], sep) == Join(ps, sep) + [sep] + x
  {
    if |ps| > 1 {
      assert (ps + [x])[1..] == ps[1..] + [x];
      JoinSnoc(ps[1..], x, sep);
    }
  }

  /** A character other than the separator occurs in the joined text only through a piece. */
  lemma {:induction false} JoinAvoids(ps: seq<string>, sep: char, ch: char)
    requires ch != sep
    requires forall i :: 0 <= i < |ps| ==> ch !in ps[i]
    ensures ch !in Join(ps, sep)
  {
    if |ps| > 1 {
      JoinAvoids(ps[1..], sep, ch);
    }
  }

  /** The first position of ch in t. */
  function IndexOf(t: string, ch: char): (i: nat)
    requires ch in t
    ensures i < |t| && t[i] == ch && ch !in t[..i]
  {
    if t[0] == ch then 0 else 1 + IndexOf(t[1..], ch)
  }

  /** The pieces of t between occurrences of sep; always at least one piece. */
  function SplitOn(t: string, sep: char): (ps: seq<string>)
    ensures |ps| >= 1
    decreases |t|
  {
    if sep in t then
      var i := IndexOf(t, sep);
      [t[..i]] + SplitOn(t[i + 1..], sep)
    else [t]
  }

  lemma SplitCons(a: string, b: string, sep: char)
    requires sep !in a
    ensures SplitOn(a + [sep] + b, sep) == [a] + SplitOn(b, sep)
  {
    var t := a + [sep] + b;
    assert t[|a|] == sep;
    assert forall k :: 0 <= k < |a| ==> t[k] == a[k];
    assert t[..|a|] == a && t[|a| + 1..] == b;
  }

  /** Splitting the joined text at the separator gives back the pieces, provided no piece
      holds the separator. */
  lemma {:induction false} SplitJoin(ps: seq<string>, sep: char)
    requires |ps| >= 1
    requires forall i :: 0 <= i < |ps| ==> sep !in ps[i]
    ensures SplitOn(Join(ps, sep), sep) == ps
  {
    if |ps| > 1 {
      SplitJoin(ps[1..], sep);
      SplitCons(ps[0], Join(ps[1..], sep), sep);
      assert ps == [ps[0]] + ps[1..];
    }
  }

  /** Each line followed by a newline character. */
  function Lines(ls: seq<string>): string {
    if ls == [] then "" else ls[0] + "\n" + Lines(ls[1..])
  }

  lemma {:induction false} LinesSnoc(ls: seq<string>, l: string)
    ensures Lines(ls + [l]) == Lines(ls) + l + "\n"
  {
    if ls == [] {
      assert ls + [l] == [l];
      assert Lines([l][1..]) == "";
    } else {
      assert (ls + [l])[1..] == ls[1..] + [l];
      LinesSnoc(ls[1..], l);
    }
  }

  /** Splitting newline-terminated lines at the newline gives the lines and a last empty piece. */
  lemma {:induction false} SplitLines(ls: seq<string>)
    requires forall i :: 0 <= i < |ls| ==> '\n' !in ls[i]
    ensures SplitOn(Lines(ls), '\n') == ls + [""]
  {
    if ls == [] {
      assert Lines(ls) == "";
    } else {
      SplitLines(ls[1..]);
      SplitCons(ls[0], Lines(ls[1..]), '\n');
      assert ls[0] + "\n" + Lines(ls[1..]) == ls[0] + ['\n'] + Lines(ls[1..]);
      assert ls == [ls[0]] + ls[1..];
    }
  }

  // ---------------------------------------------------------------------------
  // The seat grid that `ems_show` prints.
  // ---------------------------------------------------------------------------

  /** The cells of row i (counting from 1) of a row-major grid, each as `Cell` prints it. */
  function RowCells(g: seq<nat>, rows: nat, cols: nat, i: nat): seq<string>
    requires 1 <= i <= rows && |g| == rows * cols
  {
    seq(cols, c requires 0 <= c < cols => Cell(g[SeatIndex(rows, cols, i, c + 1)]))
  }

  function RowText(g: seq<nat>, rows: nat, cols: nat, i: nat): string
    requires 1 <= i <= rows && |g| == rows * cols
  {
    Join(RowCells(g, rows, cols, i), ' ')
  }

  /** The text of a row once its first j cells are appended: the cells joined by spaces,
      and a space after the last of them unless it closes the row. */
  function RowBuffer(cells: seq<string>, j: nat): string
    requires j <= |cells|
  {
    if j == 0 then "" else Join(cells[..j], ' ') + (if j < |cells| then " " else "")
  }

  /** Appending cell j, and a space unless it is the last cell, extends the row text. */
  lemma RowBufferStep(cells: seq<string>, j: nat)
    requires j < |cells|
    ensures RowBuffer(cells, j + 1) == RowBuffer(cells, j) + cells[j] + (if j + 1 < |cells| then " " else "")
  {
    if j > 0 {
      assert cells[..j + 1] == cells[..j] + [cells[j]];
      JoinSnoc(cells[..j], cells[j], ' ');
    } else {
      assert cells[..1] == [cells[0]];
    }
  }

  /** Once every cell is appended the row text is the cells joined by spaces. */
  lemma RowBufferFull(cells: seq<string>)
    ensures RowBuffer(cells, |cells|) == Join(cells, ' ')
  {
    assert cells[..|cells|] == cells;
  }

  /** The first k rows of the grid as text lines. */
  function GridLines(g: seq<nat>, rows: nat, cols: nat, k: nat): seq<string>
    requires k <= rows && |g| == rows * cols
  {
    seq(k, r requires 0 <= r < k => RowText(g, rows, cols, r + 1))
  }

  /** The whole grid: one line per row, cells separated by single spaces. */
  function GridText(g: seq<nat>, rows: nat, cols: nat): string
    requires |g| == rows * cols
  {
    Lines(GridLines(g, rows, cols, rows))
  }

  /** Appending the line of row k + 1 extends the text of the first k rows. */
  lemma GridLinesSnoc(g: seq<nat>, rows: nat, cols: nat, k: nat)
    requires k < rows && |g| == rows * cols
    ensures Lines(GridLines(g, rows, cols, k + 1)) ==
            Lines(GridLines(g, rows, cols, k)) + RowText(g, rows, cols, k + 1) + "\n"
  {
    assert GridLines(g, rows, cols, k + 1) == GridLines(g, rows, cols, k) + [RowText(g, rows, cols, k + 1)];
    LinesSnoc(GridLines(g, rows, cols, k), RowText(g, rows, cols, k + 1));
  }

  /** The value of each piece. */
  function ParseAll(ps: seq<string>): seq<nat> {
    seq(|ps|, c requires 0 <= c < |ps| => ParseDecimal(ps[c]))
  }

  function ParseRow(line: string): seq<nat> {
    ParseAll(SplitOn(line, ' '))
  }

  /** Reads a grid text back: one row per newline-terminated line, one number per
      space-separated piece. */
  function ParseGrid(t: string): seq<seq<nat>> {
    var ls := SplitOn(t, '\n');
    seq(|ls| - 1, r requires 0 <= r < |ls| - 1 => ParseRow(ls[r]))
  }

  /** A row line holds no newline, and splitting it at spaces gives back its cells. */
  lemma RowTextSplits(g: seq<nat>, rows: nat, cols: nat, i: nat)
    requires 1 <= i <= rows && |g| == rows * cols && cols >= 1
    ensures '\n' !in RowText(g, rows, cols, i)
    ensures SplitOn(RowText(g, rows, cols, i), ' ') == RowCells(g, rows, cols, i)
  {
    RowTextNoNewline(g, rows, cols, i);
    var cells := RowCells(g, rows, cols, i);
    forall c | 0 <= c < |cells|
      ensures ' ' !in cells[c]
    {
      CellIsDigits(g[SeatIndex(rows, cols, i, c + 1)]);
    }
    SplitJoin(cells, ' ');
  }

  /** A row line holds no newline, whatever the number of columns (a row of no columns is
      the empty line). */
  lemma RowTextNoNewline(g: seq<nat>, rows: nat, cols: nat, i: nat)
    requires 1 <= i <= rows && |g| == rows * cols
    ensures '\n' !in RowText(g, rows, cols, i)
  {
    var cells := RowCells(g, rows, cols, i);
    forall c | 0 <= c < |cells|
      ensures '\n' !in cells[c]
    {
      CellIsDigits(g[SeatIndex(rows, cols, i, c + 1)]);
    }
    JoinAvoids(cells, ' ', '\n');
  }

  /** The grid text consists of exactly `rows` newline-terminated lines; line r holds the
      `cols` cells of row r + 1 with single spaces between them and nothing else. */
  lemma GridTextLines(g: seq<nat>, rows: nat, cols: nat)
    requires |g| == rows * cols && cols >= 1
    ensures SplitOn(GridText(g, rows, cols), '\n') == GridLines(g, rows, cols, rows) + [""]
    ensures forall r :: 0 <= r < rows ==>
      SplitOn(GridLines(g, rows, cols, rows)[r], ' ') == RowCells(g, rows, cols, r + 1)
  {
    GridTextSplit(g, rows, cols);
    var lines := GridLines(g, rows, cols, rows);
    forall r | 0 <= r < rows
      ensures SplitOn(lines[r], ' ') == RowCells(g, rows, cols, r + 1)
    {
      assert lines[r] == RowText(g, rows, cols, r + 1);
      RowTextSplits(g, rows, cols, r + 1);
    }
  }

  /** Splitting the grid text at newlines gives the row lines and a final empty piece. */
  lemma GridTextSplit(g: seq<nat>, rows: nat, cols: nat)
    requires |g| == rows * cols
    ensures SplitOn(GridText(g, rows, cols), '\n') == GridLines(g, rows, cols, rows) + [""]
  {
    var lines := GridLines(g, rows, cols, rows);
    forall r | 0 <= r < rows
      ensures '\n' !in lines[r]
    {
      RowTextNoNewline(g, rows, cols, r + 1);
    }
    SplitLines(lines);
  }

  /** The values of row i (counting from 1) of a row-major grid, from column 1 on. */
  function RowValues(g: seq<nat>, rows: nat, cols: nat, i: nat): seq<nat>
    requires 1 <= i <= rows && |g| == rows * cols
  {
    seq(cols, c requires 0 <= c < cols => g[SeatIndex(rows, cols, i, c + 1)])
  }

  /** Parsing one row line recovers the row's values when none of them was cut. */
  lemma RowRoundTrip(g: seq<nat>, rows: nat, cols: nat, i: nat)
    requires 1 <= i <= rows && |g| == rows * cols && cols >= 1
    requires forall k :: 0 <= k < |g| ==> g[k] < 1000000000
    ensures ParseRow(RowText(g, rows, cols, i)) == RowValues(g, rows, cols, i)
  {
    RowTextSplits(g, rows, cols, i);
    var cells := RowCells(g, rows, cols, i);
    assert ParseRow(RowText(g, rows, cols, i)) == ParseAll(cells);
    CellsRoundTrip(g, rows, cols, i, cells);
  }

  lemma CellsRoundTrip(g: seq<nat>, rows: nat, cols: nat, i: nat, cells: seq<string>)
    requires 1 <= i <= rows && |g| == rows * cols
    requires forall k :: 0 <= k < |g| ==> g[k] < 1000000000
    requires cells == RowCells(g, rows, cols, i)
    ensures ParseAll(cells) == RowValues(g, rows, cols, i)
  {
    var parsed, values := ParseAll(cells), RowValues(g, rows, cols, i);
    forall c | 0 <= c < cols
      ensures parsed[c] == values[c]
    {
      var v := g[SeatIndex(rows, cols, i, c + 1)];
      CellExact(v);
    }
  }

  /** The grid text parses line by line: one parsed line per row, each the parse of that
      row's text. */
  lemma ParseGridText(g: seq<nat>, rows: nat, cols: nat)
    requires |g| == rows * cols
    ensures |ParseGrid(GridText(g, rows, cols))| == rows
    ensures forall r :: 0 <= r < rows ==>
      ParseGrid(GridText(g, rows, cols))[r] == ParseRow(RowText(g, rows, cols, r + 1))
  {
    GridTextSplit(g, rows, cols);
    var ls := SplitOn(GridText(g, rows, cols), '\n');
    var lines := GridLines(g, rows, cols, rows);
    assert ls == lines + [""];
    assert |ls| == rows + 1;
    var parsed := ParseGrid(GridText(g, rows, cols));
    forall r | 0 <= r < rows
      ensures parsed[r] == ParseRow(RowText(g, rows, cols, r + 1))
    {
      assert ls[r] == lines[r] == RowText(g, rows, cols, r + 1);
    }
  }

  /** Parsing the grid text recovers every seat value, row by row in row-major order, as
      long as every value is below 10^9 (so that no cell was cut). */
  lemma GridRoundTrip(g: seq<nat>, rows: nat, cols: nat)
    requires |g| == rows * cols && cols >= 1
    requires forall k :: 0 <= k < |g| ==> g[k] < 1000000000
    ensures |ParseGrid(GridText(g, rows, cols))| == rows
    ensures forall r :: 0 <= r < rows ==>
      ParseGrid(GridText(g, rows, cols))[r] == RowValues(g, rows, cols, r + 1)
  {
    ParseGridText(g, rows, cols);
    var parsed := ParseGrid(GridText(g, rows, cols));
    forall r | 0 <= r < rows
      ensures parsed[r] == RowValues(g, rows, cols, r + 1)
    {
      RowRoundTrip(g, rows, cols, r + 1);
    }
  }

  // ---------------------------------------------------------------------------
  // The event list that `ems_list_events` prints.
  // ---------------------------------------------------------------------------

  const NoEvents: string := "No events\n"
  const EventPrefix: string := "Event: "

  function EventLine(id: nat): string {
    EventPrefix + Cell(id)
  }

  function EventLines(ids: seq<nat>): seq<string> {
    seq(|ids|, i requires 0 <= i < |ids| => EventLine(ids[i]))
  }

  /** "No events" for an empty list, otherwise one "Event: <id>" line per event, in order. */
  function ListText(ids: seq<nat>): string {
    if ids == [] then NoEvents else Lines(EventLines(ids))
  }

  /** Reads a list text back into the ids it names. */
  function ParseList(t: string): seq<nat> {
    if t == NoEvents then []
    else
      var ls := SplitOn(t, '\n');
      seq(|ls| - 1, i requires 0 <= i < |ls| - 1 =>
        if |ls[i]| >= |EventPrefix| then ParseDecimal(ls[i][|EventPrefix|..]) else 0)
  }

  /** The list text is "No events\n" exactly when there are no events. */
  lemma ListTextEmpty(ids: seq<nat>)
    ensures ListText(ids) == NoEvents <==> ids == []
  {
    if ids != [] {
      var t := ListText(ids);
      assert t == EventLine(ids[0]) + "\n" + Lines(EventLines(ids)[1..]);
      assert t[0] == 'E';
    }
  }

  /** Parsing the list text recovers the ids in list order, as long as every id is below 10^9. */
  lemma ListRoundTrip(ids: seq<nat>)
    requires forall i :: 0 <= i < |ids| ==> ids[i] < 1000000000
    ensures ParseList(ListText(ids)) == ids
  {
    ListTextEmpty(ids);
    if ids != [] {
      var lines := EventLines(ids);
      forall i | 0 <= i < |lines|
        ensures '\n' !in lines[i]
        ensures lines[i][|EventPrefix|..] == Cell(ids[i])
      {
        CellIsDigits(ids[i]);
        assert lines[i] == EventPrefix + Cell(ids[i]);
      }
      SplitLines(lines);
      forall i | 0 <= i < |ids|
        ensures ParseList(ListText(ids))[i] == ids[i]
      {
        CellExact(ids[i]);
      }
    }
  }

  /** A list of the events 1 and 2 prints one line per event, in order. */
  lemma ListExample()
    ensures ListText([1, 2]) == "Event: 1\nEvent: 2\n"
  {
    assert Cell(1) == "1" && Cell(2) == "2" by {
      assert Decimal(1) == "1" && Decimal(2) == "2";
    }
    var events := EventLines([1, 2]);
    assert events == ["Event: 1", "Event: 2"] by {
      assert events[0] == "Event: 1" && events[1] == "Event: 2";
    }
    assert Lines(["Event: 1", "Event: 2"]) == "Event: 1\nEvent: 2\n";
  }
}

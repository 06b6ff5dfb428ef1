/** The console as an unbounded scrollback: rows are added below and never lost. */
module ConsoleSpec {
  import opened Memory

  const LINES: nat := 25
  const COLUMNS: nat := 80
  const ROW_BYTES: nat := 2 * COLUMNS

  const BACKSPACE: Byte := 0x08
  const TAB: Byte := 0x09
  const NEWLINE: Byte := 0x0a
  const RETURN: Byte := 0x0d

  const WHITE: Byte := 0x0f
  const CYAN: Byte := 0x03

  /** A row of cells, each a character byte and a color byte. */
  type Row = r: Bytes | |r| == ROW_BYTES witness seq(ROW_BYTES, _ => 0)

  function Blank(color: Byte): (r: Row)
    ensures forall k :: 0 <= k < ROW_BYTES ==> r[k] == if k % 2 == 0 then 0 else color
  {
    seq(ROW_BYTES, k => if k % 2 == 0 then 0 else color)
  }

  function WithCell(r: Row, x: nat, c: Byte, color: Byte): (r': Row)
    requires x < COLUMNS
    ensures forall k :: 0 <= k < ROW_BYTES ==> r'[k] == if k == 2 * x then c else if k == 2 * x + 1 then color else r[k]
  {
    r[2 * x := c][2 * x + 1 := color]
  }

  /** All rows since the start, and the cursor; the column may stand just past the last cell. */
  datatype Scrollback = Scrollback(rows: seq<Row>, row: nat, column: nat) {
    predicate Valid() {
      |rows| >= LINES && |rows| - LINES <= row < |rows| && column <= COLUMNS
    }
  }

  const START: Scrollback := Scrollback(seq(LINES, _ => Blank(WHITE)), 0, 0)

  function LineFeed(s: Scrollback, color: Byte): (s': Scrollback)
    requires s.Valid()
    ensures s'.Valid()
  {
    Scrollback(if s.row + 1 == |s.rows| then s.rows + [Blank(color)] else s.rows, s.row + 1, 0)
  }

  /** A character goes to the cursor's cell; past the end of a row it goes to the next row. */
  function Put(s: Scrollback, c: Byte, color: Byte): (s': Scrollback)
    requires s.Valid()
    ensures s'.Valid()
  {
    var t := if s.column == COLUMNS then LineFeed(s, color) else s;
    Scrollback(t.rows[t.row := WithCell(t.rows[t.row], t.column, c, color)], t.row, t.column + 1)
  }

  function PutAll(s: Scrollback, text: Bytes, color: Byte): (s': Scrollback)
    requires s.Valid()
    ensures s'.Valid()
    decreases |text|
  {
    if text == [] then s else Put(PutAll(s, text[..|text| - 1], color), text[|text| - 1], color)
  }

  function Zeros(n: nat): (z: Bytes)
    ensures |z| == n
  {
    if n == 0 then [] else Zeros(n - 1) + [0]
  }

  /** What one byte does; a tab is four NUL characters. */
  function Step(s: Scrollback, c: Byte, color: Byte): (s': Scrollback)
    requires s.Valid()
    ensures s'.Valid()
  {
    if c == NEWLINE then LineFeed(s, color)
    else if c == RETURN then s.(column := 0)
    else if c == TAB then PutAll(s, Zeros(4), color)
    else Put(s, c, color)
  }

  function Run(s: Scrollback, text: Bytes, color: Byte): (s': Scrollback)
    requires s.Valid()
    ensures s'.Valid()
    decreases |text|
  {
    if text == [] then s else Step(Run(s, text[..|text| - 1], color), text[|text| - 1], color)
  }

  /** Row r of the screen is the row of the scrollback that stands there. */
  predicate RowShown(buffer: Bytes, rows: seq<Row>, r: nat)
    requires |buffer| == LINES * ROW_BYTES && |rows| >= LINES && r < LINES
  {
    buffer[r * ROW_BYTES..(r + 1) * ROW_BYTES] == rows[|rows| - LINES + r]
  }

  /** The screen shows the last rows of the scrollback, with the cursor in the same place. */
  predicate Shows(buffer: Bytes, x: nat, y: nat, s: Scrollback)
    requires s.Valid()
  {
    && |buffer| == LINES * ROW_BYTES
    && x == s.column && |s.rows| - LINES + y == s.row
    && forall r :: 0 <= r < LINES ==> RowShown(buffer, s.rows, r)
  }

  lemma ClearShows(buffer: Bytes)
    requires |buffer| == LINES * ROW_BYTES
    requires forall j :: 0 <= j < |buffer| ==> buffer[j] == if j % 2 == 0 then 0 else WHITE
    ensures Shows(buffer, 0, 0, START)
  {
    forall r | 0 <= r < LINES
      ensures RowShown(buffer, START.rows, r)
    {
      var row := buffer[r * ROW_BYTES..(r + 1) * ROW_BYTES];
      forall k | 0 <= k < ROW_BYTES
        ensures row[k] == Blank(WHITE)[k]
      {
        assert row[k] == buffer[r * ROW_BYTES + k];
      }
    }
  }

  /** Moving every row up by one and blanking the last shows the scrollback with a blank row more. */
  lemma ScrollShows(buffer: Bytes, buffer': Bytes, x: nat, y: nat, s: Scrollback, color: Byte)
    requires s.Valid() && Shows(buffer, x, y, s) && y == LINES - 1 && |buffer'| == |buffer|
    requires buffer'[..(LINES - 1) * ROW_BYTES] == buffer[ROW_BYTES..]
    requires buffer'[(LINES - 1) * ROW_BYTES..] == Blank(color)
    ensures Shows(buffer', 0, y, LineFeed(s, color))
  {
    var rows := LineFeed(s, color).rows;
    forall r | 0 <= r < LINES
      ensures RowShown(buffer', rows, r)
    {
      if r < LINES - 1 {
        assert RowShown(buffer, s.rows, r + 1);
        assert buffer'[r * ROW_BYTES..(r + 1) * ROW_BYTES]
            == buffer'[..(LINES - 1) * ROW_BYTES][r * ROW_BYTES..(r + 1) * ROW_BYTES]
            == buffer[ROW_BYTES..][r * ROW_BYTES..(r + 1) * ROW_BYTES]
            == buffer[(r + 1) * ROW_BYTES..(r + 2) * ROW_BYTES];
      }
    }
  }

  /** Writing one cell shows the scrollback with that cell written. */
  lemma CellShows(buffer: Bytes, x: nat, y: nat, s: Scrollback, c: Byte, color: Byte)
    requires s.Valid() && Shows(buffer, x, y, s) && x < COLUMNS && y < LINES
    ensures Shows(buffer[(y * COLUMNS + x) * 2 := c][(y * COLUMNS + x) * 2 + 1 := color], x + 1, y, Put(s, c, color))
  {
    var p := (y * COLUMNS + x) * 2;
    var buffer' := buffer[p := c][p + 1 := color];
    var rows := Put(s, c, color).rows;
    forall r | 0 <= r < LINES
      ensures RowShown(buffer', rows, r)
    {
      assert RowShown(buffer, s.rows, r);
      CellInRow(buffer, x, y, c, color, r);
    }
  }

  lemma CellInRow(buffer: Bytes, x: nat, y: nat, c: Byte, color: Byte, r: nat)
    requires |buffer| == LINES * ROW_BYTES && x < COLUMNS && y < LINES && r < LINES
    ensures var p := (y * COLUMNS + x) * 2;
            var row := buffer[r * ROW_BYTES..(r + 1) * ROW_BYTES];
            buffer[p := c][p + 1 := color][r * ROW_BYTES..(r + 1) * ROW_BYTES]
            == if r == y then WithCell(row, x, c, color) else row
  {
    var p := (y * COLUMNS + x) * 2;
    assert p == y * ROW_BYTES + 2 * x;
  }
}

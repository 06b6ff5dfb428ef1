/** The 80 by 25 text screen. */
module Console {
  import opened Memory
  import opened ConsoleSpec

  /** text | background << 4 for four-bit colors. */
  function GetColor(text: nat, background: nat): Byte
    requires text < 16 && background < 16
  {
    text + 16 * background
  }

  class Screen {
    const buffer: array<Byte>
    var textX: nat
    var textY: nat
    var currentColor: Byte
    var setup: bool

    constructor (video: array<Byte>)
      requires video.Length == LINES * ROW_BYTES
      ensures buffer == video && !setup
    {
      buffer := video;
      textX, textY, currentColor, setup := 0, 0, 0, false;
    }

    /** The screen, and its cursor, show the end of scrollback s. */
    ghost predicate Displays(s: Scrollback)
      requires s.Valid()
      reads this, buffer
    {
      Shows(buffer[..], textX, textY, s)
    }

    method TextClear()
      requires buffer.Length == LINES * ROW_BYTES
      modifies this`textX, this`textY, buffer
      ensures Displays(START)
    {
      textX, textY := 0, 0;
      var p := 0;
      var x := 0;
      while x < COLUMNS
        invariant x <= COLUMNS && p == 2 * LINES * x && textX == textY == 0
        invariant forall j :: 0 <= j < p ==> buffer[j] == if j % 2 == 0 then 0 else WHITE
      {
        var y := 0;
        while y < LINES
          invariant y <= LINES && p == 2 * LINES * x + 2 * y && textX == textY == 0
          invariant forall j :: 0 <= j < p ==> buffer[j] == if j % 2 == 0 then 0 else WHITE
        {
          buffer[p] := 0;
          buffer[p + 1] := WHITE;
          p := p + 2;
          y := y + 1;
        }
        x := x + 1;
      }
      ClearShows(buffer[..]);
    }

    /** memcpy of all rows but the first to the top; source and destination overlap, and the copy runs
        upwards from the start. */
    method MoveRowsUp()
      requires buffer.Length == LINES * ROW_BYTES
      modifies buffer
      ensures buffer[..(LINES - 1) * ROW_BYTES] == old(buffer[ROW_BYTES..])
    {
      var i := 0;
      while i < (LINES - 1) * ROW_BYTES
        invariant i <= (LINES - 1) * ROW_BYTES
        invariant forall j :: 0 <= j < i ==> buffer[j] == old(buffer[j + ROW_BYTES])
        invariant forall j :: i <= j < buffer.Length ==> buffer[j] == old(buffer[j])
      {
        buffer[i] := buffer[i + ROW_BYTES];
        i := i + 1;
      }
    }

    method BlankLastRow()
      requires buffer.Length == LINES * ROW_BYTES
      modifies buffer
      ensures buffer[..(LINES - 1) * ROW_BYTES] == old(buffer[..(LINES - 1) * ROW_BYTES])
      ensures buffer[(LINES - 1) * ROW_BYTES..] == Blank(currentColor)
    {
      var mptr := (LINES - 1) * ROW_BYTES;
      var tmp := 0;
      while tmp < ROW_BYTES
        invariant tmp <= ROW_BYTES && tmp % 2 == 0
        invariant forall j :: 0 <= j < mptr ==> buffer[j] == old(buffer[j])
        invariant forall k :: 0 <= k < tmp ==> buffer[mptr + k] == if k % 2 == 0 then 0 else currentColor
      {
        buffer[mptr + tmp] := 0;
        buffer[mptr + tmp + 1] := currentColor;
        tmp := tmp + 2;
      }
    }

    method NewLine(ghost s: Scrollback)
      requires s.Valid() && Displays(s)
      modifies this`textX, this`textY, buffer
      ensures Displays(LineFeed(s, currentColor))
    {
      ghost var before, x := buffer[..], textX;
      textX := 0;
      if textY == LINES - 1 {
        MoveRowsUp();
        BlankLastRow();
        ScrollShows(before, buffer[..], x, textY, s, currentColor);
      } else {
        textY := textY + 1;
      }
    }

    /** text_putc without its backspace case. It calls itself for a tab, and to wrap. */
    method TextPutc(c: Byte, ghost s: Scrollback)
      requires s.Valid() && Displays(s) && c != BACKSPACE
      modifies this`textX, this`textY, buffer
      ensures Displays(Step(s, c, currentColor))
      decreases if c == TAB then 3 else if c != NEWLINE && textX == COLUMNS then 1 else 0, 0
    {
      if c == NEWLINE {
        NewLine(s);
      } else if c == RETURN {
        textX := 0;
      } else if c == TAB {
        PutFour(s);
      } else if textX == COLUMNS {
        TextPutc(NEWLINE, s);
        TextPutc(c, LineFeed(s, currentColor));
      } else {
        PutCell(c, s);
      }
    }

    /** The tab: four NUL characters. */
    method PutFour(ghost s: Scrollback)
      requires s.Valid() && Displays(s)
      modifies this`textX, this`textY, buffer
      ensures Displays(PutAll(s, Zeros(4), currentColor))
      decreases 2, 0
    {
      var tmp := 4;
      ghost var done: Bytes := [];
      while tmp > 0
        invariant 0 <= tmp <= 4 && done == Zeros(4 - tmp)
        invariant Displays(PutAll(s, done, currentColor))
      {
        tmp := tmp - 1;
        TextPutc(0, PutAll(s, done, currentColor));
        done := done + [0];
        assert done[..|done| - 1] == Zeros(|done| - 1);
      }
    }

    method PutCell(c: Byte, ghost s: Scrollback)
      requires s.Valid() && Displays(s) && textX < COLUMNS
      modifies this`textX, buffer
      ensures Displays(Put(s, c, currentColor))
    {
      var mptr := (textY * COLUMNS + textX) * 2;
      CellShows(buffer[..], textX, textY, s, c, currentColor);
      buffer[mptr] := c;
      buffer[mptr + 1] := currentColor;
      textX := textX + 1;
    }

    method Init()
      requires buffer.Length == LINES * ROW_BYTES
      modifies this, buffer
      ensures setup
      ensures old(setup) ==> textX == old(textX) && textY == old(textY) && currentColor == old(currentColor)
      ensures old(setup) ==> buffer[..] == old(buffer[..])
      ensures !old(setup) ==> Displays(START) && currentColor == CYAN
    {
      if setup {
        return;
      }
      TextClear();
      setup := true;
      currentColor := GetColor(3, 0);
    }

    /** vga_write: for every byte stream without a backspace the screen goes on showing the end of the
        unbounded scrollback of everything written. */
    method Write(text: Bytes, ghost s: Scrollback) returns (n: nat)
      requires buffer.Length == LINES * ROW_BYTES && BACKSPACE !in text
      requires s.Valid() && if setup then Displays(s) else s == START
      modifies this, buffer
      ensures n == |text| && setup
      ensures currentColor == if old(setup) then old(currentColor) else CYAN
      ensures Displays(Run(s, text, currentColor))
    {
      if !setup {
        Init();
      }
      var i := 0;
      while i < |text|
        invariant i <= |text| && setup
        invariant currentColor == if old(setup) then old(currentColor) else CYAN
        invariant Displays(Run(s, text[..i], currentColor))
      {
        TextPutc(text[i], Run(s, text[..i], currentColor));
        assert text[..i + 1][..i] == text[..i];
        i := i + 1;
      }
      assert text[..i] == text;
      return |text|;
    }
  }
}

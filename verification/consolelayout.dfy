/** What a text looks like: its lines, each broken into rows of 80 columns, with what follows a carriage
    return laid over the row that stands there. The console's character by character scrollback is that
    layout. */
module ConsoleLayout {
  import opened Memory
  import opened ConsoleSpec

  function PartLength(text: Bytes, separator: Byte): (k: nat)
    ensures k <= |text| && forall j :: 0 <= j < k ==> text[j] != separator
    ensures k < |text| ==> text[k] == separator
  {
    if text == [] || text[0] == separator then 0 else PartLength(text[1..], separator) + 1
  }

  /** The parts between separators; a separator at the end begins an empty part. */
  function Parts(text: Bytes, separator: Byte): (ps: seq<Bytes>)
    ensures ps != []
    decreases |text|
  {
    var k := PartLength(text, separator);
    if k == |text| then [text] else [text[..k]] + Parts(text[k + 1..], separator)
  }

  function Last<T>(s: seq<T>): T
    requires s != []
  {
    s[|s| - 1]
  }

  /** A stretch of characters in pieces of 80, the last one whatever remains; a full last piece is not
      followed by an empty one. */
  function Pieces(stretch: Bytes): (ps: seq<Bytes>)
    ensures ps != []
    decreases |stretch|
  {
    if |stretch| <= COLUMNS then [stretch] else [stretch[..COLUMNS]] + Pieces(stretch[COLUMNS..])
  }

  /** A piece on top of a row: what reaches beyond the piece stays. */
  function Over(row: Bytes, piece: Bytes): Bytes {
    piece + if |piece| < |row| then row[|piece|..] else []
  }

  /** Pieces written from the left edge of the last row on. */
  function LaidOver(rows: seq<Bytes>, pieces: seq<Bytes>): (r: seq<Bytes>)
    requires rows != [] && pieces != []
    ensures r != []
  {
    rows[..|rows| - 1] + [Over(Last(rows), pieces[0])] + pieces[1..]
  }

  /** The stretches of a line one after the other, each starting over on the last row of those before. */
  function Laid(stretches: seq<Bytes>): (rows: seq<Bytes>)
    requires stretches != []
    ensures rows != []
    decreases |stretches|
  {
    if |stretches| == 1 then Pieces(stretches[0])
    else LaidOver(Laid(stretches[..|stretches| - 1]), Pieces(Last(stretches)))
  }

  /** The rows of a line, and the column that its last character leaves the cursor in. */
  function LineRows(line: Bytes): (rows: seq<Bytes>)
    ensures rows != []
  {
    Laid(Parts(line, RETURN))
  }

  function LineColumn(line: Bytes): nat {
    |Last(Pieces(Last(Parts(line, RETURN))))|
  }

  function Wrapped(lines: seq<Bytes>): seq<Bytes> {
    if lines == [] then [] else LineRows(lines[0]) + Wrapped(lines[1..])
  }

  /** Tabs as the four NUL characters they stand for. */
  function Expanded(text: Bytes): Bytes
    decreases |text|
  {
    if text == [] then []
    else
      var c := text[|text| - 1];
      Expanded(text[..|text| - 1]) + if c == TAB then Zeros(4) else [c]
  }

  function Lines(text: Bytes): (ls: seq<Bytes>)
    ensures ls != []
  {
    Parts(text, NEWLINE)
  }

  /** The rows of a whole text, and the cursor's column in the last of them. */
  function Layout(text: Bytes): seq<Bytes> {
    Wrapped(Lines(Expanded(text)))
  }

  function LayoutColumn(text: Bytes): nat {
    LineColumn(Last(Lines(Expanded(text))))
  }

  // --- adding one character to the parts of a text ---

  /** One more character on the last part. */
  function Extended(parts: seq<Bytes>, c: Byte): seq<Bytes>
    requires parts != []
  {
    parts[..|parts| - 1] + [Last(parts) + [c]]
  }

  lemma PartEndsAt(text: Bytes, separator: Byte, k: nat)
    requires k <= |text| && forall j :: 0 <= j < k ==> text[j] != separator
    requires k < |text| ==> text[k] == separator
    ensures PartLength(text, separator) == k
  {
  }

  lemma PartsAt(text: Bytes, separator: Byte, k: nat)
    requires k < |text| && text[k] == separator && forall j :: 0 <= j < k ==> text[j] != separator
    ensures Parts(text, separator) == [text[..k]] + Parts(text[k + 1..], separator)
  {
    PartEndsAt(text, separator, k);
  }

  lemma OnePart(text: Bytes, separator: Byte)
    requires forall j :: 0 <= j < |text| ==> text[j] != separator
    ensures Parts(text, separator) == [text]
  {
    PartEndsAt(text, separator, |text|);
  }

  lemma ExtendedTail(first: Bytes, parts: seq<Bytes>, c: Byte)
    requires parts != []
    ensures Extended([first] + parts, c) == [first] + Extended(parts, c)
  {
  }

  lemma {:induction false} PartsGrow(text: Bytes, separator: Byte, c: Byte)
    ensures Parts(text + [c], separator)
            == if c == separator then Parts(text, separator) + [[]] else Extended(Parts(text, separator), c)
    decreases |text|
  {
    var k := PartLength(text, separator);
    if k == |text| {
      OnlyPartGrows(text, separator, c);
    } else {
      PartsGrow(text[k + 1..], separator, c);
      LaterPartsGrow(text, separator, c, k);
      ExtendedTail(text[..k], Parts(text[k + 1..], separator), c);
    }
  }

  lemma OnlyPartGrows(text: Bytes, separator: Byte, c: Byte)
    requires forall j :: 0 <= j < |text| ==> text[j] != separator
    ensures Parts(text + [c], separator)
            == if c == separator then Parts(text, separator) + [[]] else Extended(Parts(text, separator), c)
  {
    OnePart(text, separator);
    if c == separator {
      OnlyPartEnds(text, separator);
    } else {
      OnePart(text + [c], separator);
      ExtendedOne(text, c);
    }
  }

  lemma ExtendedOne(text: Bytes, c: Byte)
    ensures Extended([text], c) == [text + [c]]
  {
  }

  lemma OnlyPartEnds(text: Bytes, separator: Byte)
    requires forall j :: 0 <= j < |text| ==> text[j] != separator
    ensures Parts(text + [separator], separator) == [text] + [[]]
  {
    PartsAt(text + [separator], separator, |text|);
    Around(text, [separator], |text|);
    OnePart([], separator);
  }

  lemma Around(text: Bytes, more: Bytes, k: nat)
    requires k < |text + more| && k <= |text|
    ensures (text + more)[..k] == text[..k] && text[..|text|] == text
    ensures (text + more)[k + 1..] == if k < |text| then text[k + 1..] + more else more[1..]
  {
  }

  /** Behind its first separator a text grows as what follows the separator does. */
  lemma LaterPartsGrow(text: Bytes, separator: Byte, c: Byte, k: nat)
    requires k < |text| && text[k] == separator && forall j :: 0 <= j < k ==> text[j] != separator
    ensures Parts(text, separator) == [text[..k]] + Parts(text[k + 1..], separator)
    ensures Parts(text + [c], separator) == [text[..k]] + Parts(text[k + 1..] + [c], separator)
  {
    PartsAt(text, separator, k);
    PartsAt(text + [c], separator, k);
    Around(text, [c], k);
  }

  // --- adding one character to a layout ---

  /** A character in the given column of the last row, or on a new row if the column is past the end. */
  function Grown(rows: seq<Bytes>, column: nat, c: Byte): (r: seq<Bytes>)
    requires rows != [] && column <= |Last(rows)|
    ensures r != []
  {
    if column < COLUMNS then rows[..|rows| - 1] + [Placed(Last(rows), column, c)] else rows + [[c]]
  }

  function Placed(row: Bytes, column: nat, c: Byte): Bytes
    requires column <= |row|
  {
    if column < |row| then row[column := c] else row + [c]
  }

  function NextColumn(column: nat): nat {
    if column < COLUMNS then column + 1 else 1
  }

  lemma {:induction false} PiecesGrow(stretch: Bytes, c: Byte)
    ensures Pieces(stretch + [c]) == Grown(Pieces(stretch), |Last(Pieces(stretch))|, c)
    ensures |Last(Pieces(stretch + [c]))| == NextColumn(|Last(Pieces(stretch))|)
    decreases |stretch|
  {
    var longer := stretch + [c];
    if |stretch| > COLUMNS {
      PiecesGrow(stretch[COLUMNS..], c);
      assert longer[..COLUMNS] == stretch[..COLUMNS] && longer[COLUMNS..] == stretch[COLUMNS..] + [c];
    } else if |stretch| == COLUMNS {
      assert longer[..COLUMNS] == stretch && longer[COLUMNS..] == [c];
    }
  }

  lemma GrownBehind(above: seq<Bytes>, rows: seq<Bytes>, column: nat, c: Byte)
    requires rows != [] && column <= |Last(rows)|
    ensures Grown(above + rows, column, c) == above + Grown(rows, column, c)
  {
    assert (above + rows)[..|above + rows| - 1] == above + rows[..|rows| - 1];
  }

  lemma OverGrows(rows: seq<Bytes>, pieces: seq<Bytes>, c: Byte)
    requires rows != [] && pieces != []
    ensures |Last(pieces)| <= |Last(LaidOver(rows, pieces))|
    ensures LaidOver(rows, Grown(pieces, |Last(pieces)|, c)) == Grown(LaidOver(rows, pieces), |Last(pieces)|, c)
  {
    if |pieces| == 1 {
      assert pieces == [Last(pieces)];
      OnePieceGrows(rows, Last(pieces), c);
    } else {
      var above := rows[..|rows| - 1] + [Over(Last(rows), pieces[0])];
      TailGrows(pieces, c);
      GrownBehind(above, pieces[1..], |Last(pieces)|, c);
    }
  }

  lemma TailGrows(pieces: seq<Bytes>, c: Byte)
    requires |pieces| > 1
    ensures Last(pieces[1..]) == Last(pieces)
    ensures Grown(pieces, |Last(pieces)|, c)[0] == pieces[0]
    ensures Grown(pieces, |Last(pieces)|, c)[1..] == Grown(pieces[1..], |Last(pieces)|, c)
  {
  }

  lemma OnePieceGrows(rows: seq<Bytes>, piece: Bytes, c: Byte)
    requires rows != []
    ensures |piece| <= |Last(LaidOver(rows, [piece]))|
    ensures LaidOver(rows, Grown([piece], |piece|, c)) == Grown(LaidOver(rows, [piece]), |piece|, c)
  {
    assert [piece][1..] == [];
    OverPlaced(Last(rows), piece, c);
    if |piece| < COLUMNS {
      assert [piece + [c]][1..] == [];
    } else {
      assert ([piece] + [[c]])[1..] == [[c]];
    }
  }

  lemma OverPlaced(row: Bytes, piece: Bytes, c: Byte)
    ensures Over(row, piece + [c]) == Placed(Over(row, piece), |piece|, c)
    ensures Placed(piece, |piece|, c) == piece + [c]
  {
  }

  /** The last stretch grows: its column is where the character goes. */
  lemma LaidGrows(stretches: seq<Bytes>, c: Byte)
    requires stretches != []
    ensures |Last(Pieces(Last(stretches)))| <= |Last(Laid(stretches))|
    ensures Laid(Extended(stretches, c)) == Grown(Laid(stretches), |Last(Pieces(Last(stretches)))|, c)
  {
    var last := Last(stretches);
    PiecesGrow(last, c);
    if |stretches| > 1 {
      OverGrows(Laid(stretches[..|stretches| - 1]), Pieces(last), c);
      LaidExtended(stretches, c);
    }
  }

  lemma LaidExtended(stretches: seq<Bytes>, c: Byte)
    requires |stretches| > 1
    ensures Laid(Extended(stretches, c))
            == LaidOver(Laid(stretches[..|stretches| - 1]), Pieces(Last(stretches) + [c]))
  {
    var longer := Extended(stretches, c);
    assert longer[..|longer| - 1] == stretches[..|stretches| - 1];
  }

  /** A return goes back to the left edge and leaves every row. */
  lemma ReturnKeepsRows(stretches: seq<Bytes>)
    requires stretches != []
    ensures Laid(stretches + [[]]) == Laid(stretches)
  {
    var empty: Bytes := [];
    var rows := Laid(stretches);
    assert (stretches + [empty])[..|stretches|] == stretches;
    assert Over(Last(rows), empty) == Last(rows);
    assert [empty][1..] == [];
    assert LaidOver(rows, [empty]) == rows;
  }

  lemma LineGrows(line: Bytes, c: Byte)
    ensures LineColumn(line) <= |Last(LineRows(line))|
    ensures LineRows(line + [c]) == if c == RETURN then LineRows(line) else Grown(LineRows(line), LineColumn(line), c)
    ensures LineColumn(line + [c]) == if c == RETURN then 0 else NextColumn(LineColumn(line))
  {
    var stretches := Parts(line, RETURN);
    PartsGrow(line, RETURN, c);
    LaidGrows(stretches, c);
    ReturnKeepsRows(stretches);
    PiecesGrow(Last(stretches), c);
  }

  lemma {:induction false} WrappedConcat(a: seq<Bytes>, b: seq<Bytes>)
    ensures Wrapped(a + b) == Wrapped(a) + Wrapped(b)
    decreases |a|
  {
    if a == [] {
      assert a + b == b;
    } else {
      WrappedConcat(a[1..], b);
      assert (a + b)[1..] == a[1..] + b;
    }
  }

  lemma WrappedOne(line: Bytes)
    ensures Wrapped([line]) == LineRows(line)
  {
    assert [line][1..] == [];
    assert Wrapped([line]) == LineRows(line) + Wrapped([]);
  }

  lemma WrappedLast(lines: seq<Bytes>, line: Bytes)
    ensures Wrapped(lines + [line]) == Wrapped(lines) + LineRows(line)
  {
    WrappedConcat(lines, [line]);
    WrappedOne(line);
  }

  lemma WrappedGrows(lines: seq<Bytes>, c: Byte)
    requires lines != []
    ensures Wrapped(lines) != [] && LineColumn(Last(lines)) <= |Last(Wrapped(lines))|
    ensures Wrapped(Extended(lines, c))
            == if c == RETURN then Wrapped(lines) else Grown(Wrapped(lines), LineColumn(Last(lines)), c)
  {
    var init, line := lines[..|lines| - 1], Last(lines);
    assert lines == init + [line];
    WrappedLast(init, line);
    WrappedLast(init, line + [c]);
    LineGrows(line, c);
    GrownBehind(Wrapped(init), LineRows(line), LineColumn(line), c);
  }

  lemma EmptyLine()
    ensures LineRows([]) == [[]] && LineColumn([]) == 0
  {
    OnePart([], RETURN);
  }

  /** What a character adds to a layout: a newline an empty row, a return nothing, and any other the cell at
      the cursor, or at the start of a new row. */
  lemma WrapGrows(text: Bytes, c: Byte)
    ensures Wrapped(Lines(text)) != [] && LineColumn(Last(Lines(text))) <= |Last(Wrapped(Lines(text)))|
    ensures Wrapped(Lines(text + [c]))
            == if c == NEWLINE then Wrapped(Lines(text)) + [[]]
               else if c == RETURN then Wrapped(Lines(text))
               else Grown(Wrapped(Lines(text)), LineColumn(Last(Lines(text))), c)
    ensures LineColumn(Last(Lines(text + [c])))
            == if c == NEWLINE || c == RETURN then 0 else NextColumn(LineColumn(Last(Lines(text))))
  {
    PartsGrow(text, NEWLINE, c);
    WrappedGrows(Lines(text), c);
    WrappedLast(Lines(text), []);
    EmptyLine();
    LineGrows(Last(Lines(text)), c);
  }

  // --- the scrollback is the layout ---

  /** The row shows the text from its left edge, in the given color, and NUL characters after it. */
  predicate RowReads(row: Row, text: Bytes, color: Byte, blank: Byte) {
    && |text| <= COLUMNS
    && (forall x :: 0 <= x < |text| ==> row[2 * x] == text[x] && row[2 * x + 1] == color)
    && (forall x :: |text| <= x < COLUMNS ==> row[2 * x] == 0 && row[2 * x + 1] == blank)
  }

  /** The color of cells that hold nothing: the first screen is cleared in white, later rows in the color
      that is set. */
  function BlankColor(r: nat, color: Byte): Byte {
    if r < LINES then WHITE else color
  }

  /** The scrollback's rows read as the given ones, the cursor stands in the given column of the last of
      them, and any further rows of the first screen are still empty. */
  predicate Reads(s: Scrollback, rows: seq<Bytes>, column: nat, color: Byte) {
    && s.Valid() && rows != []
    && s.row == |rows| - 1 && s.column == column <= |Last(rows)|
    && |s.rows| == (if |rows| < LINES then LINES else |rows|)
    && (forall r :: 0 <= r < |rows| ==> RowReads(s.rows[r], rows[r], color, BlankColor(r, color)))
    && (forall r :: |rows| <= r < |s.rows| ==> RowReads(s.rows[r], [], color, BlankColor(r, color)))
  }

  lemma LineFeedReads(s: Scrollback, rows: seq<Bytes>, column: nat, color: Byte)
    requires Reads(s, rows, column, color)
    ensures Reads(LineFeed(s, color), rows + [[]], 0, color)
  {
  }

  lemma ReturnReads(s: Scrollback, rows: seq<Bytes>, column: nat, color: Byte)
    requires Reads(s, rows, column, color)
    ensures Reads(Step(s, RETURN, color), rows, 0, color)
  {
  }

  lemma PutReads(s: Scrollback, rows: seq<Bytes>, column: nat, c: Byte, color: Byte)
    requires Reads(s, rows, column, color)
    ensures Reads(Put(s, c, color), Grown(rows, column, c), NextColumn(column), color)
  {
    if column < COLUMNS {
      CellPutReads(s, rows, column, c, color);
    } else {
      var empty: Bytes := [];
      LineFeedReads(s, rows, column, color);
      CellPutReads(LineFeed(s, color), rows + [empty], 0, c, color);
      GrownNew(rows, c);
    }
  }

  lemma GrownNew(rows: seq<Bytes>, c: Byte)
    ensures Grown(rows + [[]], 0, c) == rows + [[c]]
  {
    var empty: Bytes := [];
    assert empty + [c] == [c];
    assert (rows + [empty])[..|rows|] == rows;
  }

  lemma CellPutReads(s: Scrollback, rows: seq<Bytes>, column: nat, c: Byte, color: Byte)
    requires Reads(s, rows, column, color) && column < COLUMNS
    ensures Reads(Put(s, c, color), Grown(rows, column, c), column + 1, color)
  {
    assert RowReads(s.rows[s.row], rows[s.row], color, BlankColor(s.row, color));
    CellReads(s.rows[s.row], Last(rows), column, c, color, BlankColor(s.row, color));
  }

  lemma CellReads(row: Row, text: Bytes, column: nat, c: Byte, color: Byte, blank: Byte)
    requires RowReads(row, text, color, blank) && column <= |text| && column < COLUMNS
    ensures RowReads(WithCell(row, column, c, color), Placed(text, column, c), color, blank)
  {
  }

  predicate Plain(text: Bytes) {
    forall i :: 0 <= i < |text| ==> text[i] != TAB && text[i] != BACKSPACE
  }

  lemma {:induction false} RunReads(text: Bytes, color: Byte)
    requires Plain(text)
    ensures Reads(Run(START, text, color), Wrapped(Lines(text)), LineColumn(Last(Lines(text))), color)
    decreases |text|
  {
    if text == [] {
      StartReads(color);
    } else {
      var front, c := text[..|text| - 1], text[|text| - 1];
      RunReads(front, color);
      assert text == front + [c];
      WrapGrows(front, c);
      StepReads(Run(START, front, color), Wrapped(Lines(front)), LineColumn(Last(Lines(front))), c, color);
    }
  }

  lemma StartReads(color: Byte)
    ensures Reads(START, Wrapped(Lines([])), LineColumn(Last(Lines([]))), color)
  {
    NothingYet();
    BlankReads(color);
  }

  lemma NothingYet()
    ensures Wrapped(Lines([])) == [[]] && LineColumn(Last(Lines([]))) == 0
  {
    EmptyLine();
    OnePart([], NEWLINE);
    WrappedOne([]);
  }

  lemma BlankReads(color: Byte)
    ensures Reads(START, [[]], 0, color)
  {
    assert forall r :: 0 <= r < LINES ==> RowReads(START.rows[r], [], color, WHITE);
  }

  lemma StepReads(s: Scrollback, rows: seq<Bytes>, column: nat, c: Byte, color: Byte)
    requires Reads(s, rows, column, color) && c != TAB
    ensures c == NEWLINE ==> Reads(Step(s, c, color), rows + [[]], 0, color)
    ensures c == RETURN ==> Reads(Step(s, c, color), rows, 0, color)
    ensures c != NEWLINE && c != RETURN ==>
              Reads(Step(s, c, color), Grown(rows, column, c), NextColumn(column), color)
  {
    if c == NEWLINE {
      LineFeedReads(s, rows, column, color);
    } else if c == RETURN {
      ReturnReads(s, rows, column, color);
    } else {
      PutReads(s, rows, column, c, color);
    }
  }

  lemma {:induction false} RunConcat(s: Scrollback, a: Bytes, b: Bytes, color: Byte)
    requires s.Valid()
    ensures Run(s, a + b, color) == Run(Run(s, a, color), b, color)
    decreases |b|
  {
    if b == [] {
      assert a + b == a;
    } else {
      var front := b[..|b| - 1];
      assert (a + b)[..|a + b| - 1] == a + front;
      RunConcat(s, a, front, color);
    }
  }

  lemma {:induction false} RunZeros(s: Scrollback, n: nat, color: Byte)
    requires s.Valid()
    ensures Run(s, Zeros(n), color) == PutAll(s, Zeros(n), color)
  {
    if n > 0 {
      assert Zeros(n)[..n - 1] == Zeros(n - 1);
      RunZeros(s, n - 1, color);
    }
  }

  lemma {:induction false} RunExpanded(text: Bytes, color: Byte)
    ensures Run(START, text, color) == Run(START, Expanded(text), color)
    decreases |text|
  {
    if text != [] {
      var front, c := text[..|text| - 1], text[|text| - 1];
      RunExpanded(front, color);
      var s := Run(START, front, color);
      RunConcat(START, Expanded(front), if c == TAB then Zeros(4) else [c], color);
      if c == TAB {
        RunZeros(s, 4, color);
      } else {
        assert [c][..0] == [];
        assert Run(s, [c], color) == Step(Run(s, [], color), c, color);
      }
    }
  }

  lemma {:induction false} ExpandedIsPlain(text: Bytes)
    requires BACKSPACE !in text
    ensures Plain(Expanded(text))
    decreases |text|
  {
    if text != [] {
      ExpandedIsPlain(text[..|text| - 1]);
      ZerosAreZero(4);
    }
  }

  lemma {:induction false} ZerosAreZero(n: nat)
    ensures forall i :: 0 <= i < n ==> Zeros(n)[i] == 0
  {
    if n > 0 {
      ZerosAreZero(n - 1);
    }
  }

  /** The console lays text out: whatever is written, without a backspace, the scrollback reads as its lines
      broken into rows of 80 columns, what follows a return over what stood there, and the cursor stands
      behind the last character. */
  lemma ConsoleWraps(text: Bytes, color: Byte)
    requires BACKSPACE !in text
    ensures Reads(Run(START, text, color), Layout(text), LayoutColumn(text), color)
  {
    RunExpanded(text, color);
    ExpandedIsPlain(text);
    RunReads(Expanded(text), color);
  }

  /** For instance, what is written after a return overwrites the start of the line. */
  lemma ReturnOverwrites(a: Bytes, b: Bytes, color: Byte)
    requires |b| <= |a| <= COLUMNS && Plain(a + b) && NEWLINE !in a + b && RETURN !in a + b
    ensures Reads(Run(START, a + [RETURN] + b, color), [b + a[|b|..]], |b|, color)
  {
    var text := a + [RETURN] + b;
    BothSides(a, b, text);
    RunReads(text, color);
    OnePart(text, NEWLINE);
    WrappedOne(text);
    TwoParts(a, b, RETURN);
    LaidTwo(a, b);
  }

  lemma BothSides(a: Bytes, b: Bytes, text: Bytes)
    requires text == a + [RETURN] + b && Plain(a + b) && NEWLINE !in a + b && RETURN !in a + b
    ensures Plain(text) && NEWLINE !in text && RETURN !in a && RETURN !in b
  {
    forall i | 0 <= i < |text|
      ensures text[i] != TAB && text[i] != BACKSPACE && text[i] != NEWLINE
    {
      assert text[i] == if i < |a| then (a + b)[i] else if i == |a| then RETURN else (a + b)[i - 1];
    }
    assert forall i :: 0 <= i < |b| ==> b[i] == (a + b)[|a| + i];
  }

  lemma TwoParts(a: Bytes, b: Bytes, separator: Byte)
    requires separator !in a && separator !in b
    ensures Parts(a + [separator] + b, separator) == [a, b]
  {
    var text := a + [separator] + b;
    PartsAt(text, separator, |a|);
    OnePart(b, separator);
    assert text[..|a|] == a && text[|a| + 1..] == b;
  }

  lemma LaidTwo(a: Bytes, b: Bytes)
    requires |b| <= |a| <= COLUMNS
    ensures Laid([a, b]) == [b + a[|b|..]]
  {
    assert [a, b][..1] == [a] && [b][1..] == [];
    assert LaidOver([a], [b]) == [Over(a, b)];
    assert Over(a, b) == b + a[|b|..];
  }
}

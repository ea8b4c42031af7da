/**
  The kernel's text terminal: glyphs drawn pixel by pixel into the framebuffer. The framebuffer is
  proved to be the rendering of a grid of cells, which a small state machine over characters
  updates.
 */
module Terminal {
  import opened Common
  import opened Bits

  const MARGIN: nat := 16

  datatype Format = RGB | BGR
  datatype Color = Color(r: byte, g: byte, b: byte)
  datatype Mode = Print | SetR | SetG | SetB

  /** Eight rows of eight pixels, the leftmost pixel in bit 0. */
  type Glyph = g: seq<byte> | |g| == 8 witness [0, 0, 0, 0, 0, 0, 0, 0]
  const BLANK_GLYPH: Glyph := [0, 0, 0, 0, 0, 0, 0, 0]
  const SPACE_ONLY: map<char, Glyph> := map[' ' := BLANK_GLYPH]
  type Font = f: map<char, Glyph> | ' ' in f witness SPACE_ONLY

  datatype Cell = Cell(glyph: Glyph, color: Color)

  datatype Screen = Screen(width: nat, height: nat, scan: nat, format: Format) {
    function Rows(): nat
      requires Usable()
    {
      (height - MARGIN * 2) / 8
    }

    function Columns(): nat
      requires Usable()
    {
      (width - MARGIN * 2) / 8
    }

    /** Room for the margins, scanlines that reach past the last column, and 32-bit pixel arithmetic. */
    predicate Usable() {
      && width >= 2 * MARGIN && height >= 2 * MARGIN
      && MARGIN + 8 <= scan && MARGIN + (width - MARGIN * 2) / 8 * 8 <= scan
      && scan * height * 4 < 0x1_0000_0000
    }

    /** Rows and columns the cursor can reach; a screen too small for one row still uses row 0. */
    function GridRows(): (r: nat)
      requires Usable()
      ensures r > 0
    {
      if Rows() == 0 then 1 else Rows()
    }

    function GridColumns(): (r: nat)
      requires Usable()
      ensures r > 0
    {
      if Columns() == 0 then 1 else Columns()
    }
  }

  /** The grid fills the screen inside margins of 16 pixels with cells of 8 by 8. */
  lemma GridFills(sc: Screen)
    requires sc.Usable()
    ensures 32 + 8 * sc.Rows() <= sc.height < 40 + 8 * sc.Rows()
    ensures 32 + 8 * sc.Columns() <= sc.width < 40 + 8 * sc.Columns()
    ensures sc.GridRows() == (if sc.Rows() == 0 then 1 else sc.Rows())
    ensures sc.GridColumns() == (if sc.Columns() == 0 then 1 else sc.Columns())
  {}

  // ----- The character grid

  /** Cursor, colour, escape mode, and the last glyph and colour drawn in each (row, column). */
  datatype State = State(x: nat, y: nat, color: Color, mode: Mode, cells: map<(nat, nat), Cell>)

  ghost predicate CursorOk(sc: Screen, s: State) {
    sc.Usable() && s.x < sc.GridColumns() && s.y < sc.GridRows()
  }

  const INITIAL_STATE: State := State(0, 0, Color(255, 255, 255), Print, map[])

  function AsByte(c: char): byte { (c as int) % 256 }

  function GlyphOf(font: Font, c: char): Glyph {
    if c in font then font[c] else font[' ']
  }

  function NextRow(sc: Screen, y: nat): nat
    requires sc.Usable()
  {
    if y + 1 >= sc.Rows() then 0 else y + 1
  }

  function Advanced(sc: Screen, s: State): State
    requires sc.Usable()
  {
    if s.x + 1 >= sc.Columns() then s.(x := 0, y := NextRow(sc, s.y)) else s.(x := s.x + 1)
  }

  function Step(sc: Screen, font: Font, s: State, c: char): State
    requires sc.Usable()
  {
    match s.mode
    case SetR => s.(color := s.color.(r := AsByte(c)), mode := SetG)
    case SetG => s.(color := s.color.(g := AsByte(c)), mode := SetB)
    case SetB => s.(color := s.color.(b := AsByte(c)), mode := Print)
    case Print =>
      if c == '\U{1B}' then s.(mode := SetR)
      else if c == '\n' then s.(x := 0, y := NextRow(sc, s.y))
      else Advanced(sc, s.(cells := s.cells[(s.y, s.x) := Cell(GlyphOf(font, c), s.color)]))
  }

  function Run(sc: Screen, font: Font, s: State, text: string): State
    requires sc.Usable()
    decreases |text|
  {
    if text == [] then s else Run(sc, font, Step(sc, font, s, text[0]), text[1..])
  }

  /** Printing a text in pieces, cut anywhere, is printing it whole. */
  lemma {:induction false} RunConcat(sc: Screen, font: Font, s: State, a: string, b: string)
    requires sc.Usable()
    ensures Run(sc, font, s, a + b) == Run(sc, font, Run(sc, font, s, a), b)
    decreases |a|
  {
    if a == [] {
      assert a + b == b;
    } else {
      assert (a + b)[1..] == a[1..] + b;
      RunConcat(sc, font, Step(sc, font, s, a[0]), a[1..], b);
    }
  }

  lemma {:induction false} RunCursorOk(sc: Screen, font: Font, s: State, text: string)
    requires CursorOk(sc, s)
    ensures CursorOk(sc, Run(sc, font, s, text))
    decreases |text|
  {
    if text != [] { RunCursorOk(sc, font, Step(sc, font, s, text[0]), text[1..]); }
  }

  /** An escape sets the colour and neither draws nor moves the cursor. */
  lemma EscapeSetsColor(sc: Screen, font: Font, s: State, r: char, g: char, b: char, text: string)
    requires sc.Usable() && s.mode.Print?
    ensures Run(sc, font, s, ['\U{1B}', r, g, b] + text)
            == Run(sc, font, s.(color := Color(r as int % 256, g as int % 256, b as int % 256)), text)
  {
    hide Run;
    var t3 := [b] + text;
    var t2 := [g] + t3;
    var t1 := [r] + t2;
    assert ['\U{1B}', r, g, b] + text == ['\U{1B}'] + t1;
    var s1 := RunCons(sc, font, s, '\U{1B}', t1);
    var s2 := RunCons(sc, font, s1, r, t2);
    var s3 := RunCons(sc, font, s2, g, t3);
    var s4 := RunCons(sc, font, s3, b, text);
  }

  lemma RunCons(sc: Screen, font: Font, s: State, c: char, text: string) returns (s': State)
    requires sc.Usable()
    ensures s' == Step(sc, font, s, c) && Run(sc, font, s, [c] + text) == Run(sc, font, s', text)
  {
    s' := Step(sc, font, s, c);
    assert ([c] + text)[1..] == text;
  }

  /** Number of the cursor's cell, row by row. */
  function Position(sc: Screen, s: State): nat
    requires sc.Usable()
  {
    s.y * sc.GridColumns() + s.x
  }

  predicate Printable(text: string) {
    forall i :: 0 <= i < |text| ==> text[i] != '\U{1B}' && text[i] != '\n'
  }

  lemma AdvancePosition(sc: Screen, s: State)
    requires CursorOk(sc, s)
    ensures Position(sc, Advanced(sc, s)) == (Position(sc, s) + 1) % (sc.GridRows() * sc.GridColumns())
    ensures Position(sc, s) < sc.GridRows() * sc.GridColumns()
  {
    AdvancedCursor(sc, s);
    AdvanceGrid(sc.GridRows(), sc.GridColumns(), s.y, s.x);
  }

  lemma AdvancedCursor(sc: Screen, s: State)
    requires CursorOk(sc, s)
    ensures var t := Advanced(sc, s);
            (t.y, t.x) == NextCell(sc.GridRows(), sc.GridColumns(), s.y, s.x)
  {}

  function NextCell(r: nat, c: nat, y: nat, x: nat): (nat, nat) {
    if x + 1 < c then (y, x + 1) else if y + 1 < r then (y + 1, 0) else (0, 0)
  }

  lemma AdvanceGrid(r: nat, c: nat, y: nat, x: nat)
    requires y < r && x < c
    ensures y * c + x < r * c
    ensures var (y', x') := NextCell(r, c, y, x);
            y' * c + x' == (y * c + x + 1) % (r * c)
  {
    GridCell(r, c, y, x);
    if x + 1 < c {
      GridCell(r, c, y, x + 1);
      DivModUnique(y * c + x + 1, r * c, 0, y * c + x + 1);
    } else if y + 1 < r {
      GridCell(r, c, y + 1, 0);
      assert (y + 1) * c == y * c + c;
      DivModUnique((y + 1) * c, r * c, 0, (y + 1) * c);
    } else {
      assert y * c + c == r * c;
      DivModUnique(r * c, r * c, 1, 0);
    }
  }

  lemma GridCell(r: nat, c: nat, y: nat, x: nat)
    requires y < r && x < c
    ensures y * c + x < r * c
  {
    assert (y + 1) * c <= r * c;
    assert (y + 1) * c == y * c + c;
  }

  /** Plain text moves the cursor once around the grid, cell by cell. */
  lemma {:induction false} PlainTextPosition(sc: Screen, font: Font, s: State, text: string)
    requires CursorOk(sc, s) && s.mode.Print? && Printable(text)
    ensures Position(sc, Run(sc, font, s, text)) == (Position(sc, s) + |text|) % (sc.GridRows() * sc.GridColumns())
    decreases |text|
  {
    hide Position;
    var n := sc.GridRows() * sc.GridColumns();
    AdvancePosition(sc, s);
    if text == [] {
      DivModUnique(Position(sc, s), n, 0, Position(sc, s));
    } else {
      var s1 := Step(sc, font, s, text[0]);
      assert text[0] != '\U{1B}' && text[0] != '\n';
      SamePosition(sc, s, s.(cells := s.cells[(s.y, s.x) := Cell(GlyphOf(font, text[0]), s.color)]));
      PlainTextPosition(sc, font, s1, text[1..]);
      ModShift(Position(sc, s) + 1, |text| - 1, n);
    }
  }

  lemma SamePosition(sc: Screen, s: State, t: State)
    requires sc.Usable() && s.x == t.x && s.y == t.y
    ensures Position(sc, s) == Position(sc, t) && Position(sc, Advanced(sc, s)) == Position(sc, Advanced(sc, t))
  {}

  lemma ModShift(a: nat, b: nat, n: nat)
    requires n > 0
    ensures (a % n + b) % n == (a + b) % n
  {
    DivModSplit(a, n);
    DivModSplit(a % n + b, n);
    var q, q' := a / n, (a % n + b) / n;
    assert n * (q + q') == n * q + n * q';
    DivModUnique(a + b, n, q + q', (a % n + b) % n);
  }

  /** A newline goes to the start of the next row, wrapping at the bottom, and draws nothing. */
  lemma NewLineWraps(sc: Screen, font: Font, s: State)
    requires CursorOk(sc, s) && s.mode.Print?
    ensures Step(sc, font, s, '\n') == s.(x := 0, y := (s.y + 1) % sc.GridRows())
  {}

  /** Plain text keeps colour and mode. */
  lemma {:induction false} PlainTextKeeps(sc: Screen, font: Font, s: State, text: string)
    requires CursorOk(sc, s) && s.mode.Print? && Printable(text)
    ensures Run(sc, font, s, text).color == s.color && Run(sc, font, s, text).mode.Print?
    decreases |text|
  {
    if text != [] {
      assert text[0] != '\U{1B}' && text[0] != '\n';
      PlainTextKeeps(sc, font, Step(sc, font, s, text[0]), text[1..]);
    }
  }

  /** The cell of character i of a plain text that starts at position p. */
  function CellOf(sc: Screen, p: nat, i: nat): (nat, nat)
    requires sc.Usable()
  {
    var c := sc.GridColumns();
    var q := (p + i) % (sc.GridRows() * c);
    DivNonNegative(q, c);
    (q / c, q % c)
  }

  /** Unless overwritten a full grid later, character i of a plain text stands in its cell. */
  lemma {:induction false} PlainTextCells(sc: Screen, font: Font, s: State, text: string, i: nat)
    requires CursorOk(sc, s) && s.mode.Print? && Printable(text)
    requires i < |text| <= i + sc.GridRows() * sc.GridColumns()
    ensures var cells := Run(sc, font, s, text).cells;
            var at := CellOf(sc, Position(sc, s), i);
            at in cells && cells[at] == Cell(if text[i] in font then font[text[i]] else font[' '], s.color)
    decreases |text|
  {
    hide Run, CellOf, Position;
    var n := |text| - 1;
    var init, last := text[..n], text[n];
    assert init + [last] == text;
    RunConcat(sc, font, s, init, [last]);
    var s1 := Run(sc, font, s, init);
    var s2 := RunCons(sc, font, s1, last, []);
    assert [last] + [] == [last];
    RunEmpty(sc, font, s2);
    PlainTextKeeps(sc, font, s, init);
    RunCursorOk(sc, font, s, init);
    PlainTextPosition(sc, font, s, init);
    assert last != '\U{1B}' && last != '\n';
    CursorCell(sc, s1, Position(sc, s), n);
    if i < n {
      PlainTextCells(sc, font, s, init, i);
      CellsDiffer(sc, Position(sc, s), i, n);
    }
  }

  lemma RunEmpty(sc: Screen, font: Font, s: State)
    requires sc.Usable()
    ensures Run(sc, font, s, []) == s
  {}

  lemma CursorCell(sc: Screen, s: State, p: nat, i: nat)
    requires CursorOk(sc, s) && Position(sc, s) == (p + i) % (sc.GridRows() * sc.GridColumns())
    ensures CellOf(sc, p, i) == (s.y, s.x)
  {
    DivModUnique(Position(sc, s), sc.GridColumns(), s.y, s.x);
  }

  lemma CellsDiffer(sc: Screen, p: nat, i: nat, j: nat)
    requires sc.Usable() && i < j < i + sc.GridRows() * sc.GridColumns()
    ensures CellOf(sc, p, i) != CellOf(sc, p, j)
  {
    var c := sc.GridColumns();
    var n := sc.GridRows() * c;
    var a, b := (p + i) % n, (p + j) % n;
    DivModSplit(a, c);
    DivModSplit(b, c);
    DifferentRemainders(p + i, p + j, n);
  }

  lemma DifferentRemainders(a: nat, b: nat, n: nat)
    requires a < b < a + n
    ensures a % n != b % n
  {
    DivModSplit(a, n);
    DivModSplit(b, n);
    var t := b / n - a / n;
    assert n * t == n * (b / n) - n * (a / n);
    MultipleIsFar(n, t);
  }

  // ----- Screens without room for a second row or column

  lemma {:induction false} SmallScreenRun(sc: Screen, font: Font, s: State, text: string)
    requires sc.Usable()
    ensures var t := Run(sc, font, s, text);
            && (sc.Rows() <= 1 && s.y == 0 ==> t.y == 0)
            && (sc.Columns() <= 1 && s.x == 0 ==> t.x == 0)
            && (sc.Rows() <= 1 && sc.Columns() <= 1 && s.x == 0 && s.y == 0 && s.cells.Keys <= {(0, 0)}
                ==> t.cells.Keys <= {(0, 0)})
    decreases |text|
  {
    if text != [] { SmallScreenRun(sc, font, Step(sc, font, s, text[0]), text[1..]); }
  }

  lemma TwoCharacters(sc: Screen, font: Font, a: char, b: char)
    requires sc.Usable()
    ensures Run(sc, font, INITIAL_STATE, [a]) == Step(sc, font, INITIAL_STATE, a)
    ensures Run(sc, font, INITIAL_STATE, [a, b]) == Step(sc, font, Step(sc, font, INITIAL_STATE, a), b)
  {
    hide Step, Run;
    assert [a] + [] == [a] && [a] + [b] == [a, b] && [b] + [] == [b];
    var s1 := RunCons(sc, font, INITIAL_STATE, a, []);
    var s2 := RunCons(sc, font, INITIAL_STATE, a, [b]);
    var s3 := RunCons(sc, font, s2, b, []);
    RunEmpty(sc, font, s1);
    RunEmpty(sc, font, s3);
  }

  /** No text leaves row 0 if and only if there is no second row. */
  lemma RowStaysZero(sc: Screen, font: Font)
    requires sc.Usable()
    ensures (forall text :: Run(sc, font, INITIAL_STATE, text).y == 0) <==> sc.Rows() <= 1
  {
    if sc.Rows() <= 1 {
      forall text ensures Run(sc, font, INITIAL_STATE, text).y == 0 {
        SmallScreenRun(sc, font, INITIAL_STATE, text);
      }
    } else {
      TwoCharacters(sc, font, '\n', 'a');
      assert Run(sc, font, INITIAL_STATE, ['\n']).y == 1;
    }
  }

  /** No text leaves column 0 if and only if there is no second column. */
  lemma ColumnStaysZero(sc: Screen, font: Font)
    requires sc.Usable()
    ensures (forall text :: Run(sc, font, INITIAL_STATE, text).x == 0) <==> sc.Columns() <= 1
  {
    if sc.Columns() <= 1 {
      forall text ensures Run(sc, font, INITIAL_STATE, text).x == 0 {
        SmallScreenRun(sc, font, INITIAL_STATE, text);
      }
    } else {
      TwoCharacters(sc, font, 'a', 'a');
      assert Run(sc, font, INITIAL_STATE, ['a']).x == 1;
    }
  }

  /** Every text is drawn into cell (0, 0) alone if and only if there is neither. */
  lemma OnlyFirstCell(sc: Screen, font: Font)
    requires sc.Usable()
    ensures (forall text :: Run(sc, font, INITIAL_STATE, text).cells.Keys <= {(0, 0)})
            <==> sc.Rows() <= 1 && sc.Columns() <= 1
  {
    if sc.Rows() <= 1 && sc.Columns() <= 1 {
      forall text ensures Run(sc, font, INITIAL_STATE, text).cells.Keys <= {(0, 0)} {
        SmallScreenRun(sc, font, INITIAL_STATE, text);
      }
    } else if sc.Columns() > 1 {
      TwoCharacters(sc, font, 'a', 'a');
      assert (0, 1) in Run(sc, font, INITIAL_STATE, ['a', 'a']).cells.Keys;
    } else {
      TwoCharacters(sc, font, '\n', 'a');
      assert (1, 0) in Run(sc, font, INITIAL_STATE, ['\n', 'a']).cells.Keys;
    }
  }

  // ----- Rendering

  function ByteAt(sc: Screen, x: nat, y: nat, channel: nat): nat {
    (x + y * sc.scan) * 4 + channel
  }

  function PixelX(sc: Screen, b: nat): nat
    requires sc.scan > 0
  {
    b / 4 % sc.scan
  }

  function PixelY(sc: Screen, b: nat): nat
    requires sc.scan > 0
  {
    DivNonNegative(b / 4, sc.scan);
    b / 4 / sc.scan
  }

  /** Byte positions and (x, y, channel) triples correspond one to one. */
  lemma ByteCoordinates(sc: Screen, b: nat, x: nat, y: nat, channel: nat)
    requires sc.scan > 0 && x < sc.scan && channel < 4
    ensures b == ByteAt(sc, x, y, channel) <==> PixelX(sc, b) == x && PixelY(sc, b) == y && b % 4 == channel
  {
    DivModSplit(b / 4, sc.scan);
    if b == ByteAt(sc, x, y, channel) {
      DivModUnique(b / 4, sc.scan, y, x);
    }
  }

  lemma ByteInBuffer(sc: Screen, x: nat, y: nat, channel: nat)
    requires x < sc.scan && y < sc.height && channel < 4
    ensures ByteAt(sc, x, y, channel) < sc.scan * sc.height * 4
  {
    GridCell(sc.height, sc.scan, y, x);
  }

  function Channel(format: Format, color: Color, channel: nat): byte
    requires channel < 3
  {
    if channel == 1 then color.g
    else if (channel == 0) == (format == BGR) then color.b
    else color.r
  }

  /** The pixel (dx, dy) of a cell. */
  function PixelOf(format: Format, cell: Cell, dx: nat, dy: nat, channel: nat): byte
    requires dx < 8 && dy < 8 && channel < 3
  {
    if And(cell.glyph[dy], Pow2(dx)) != 0 then Channel(format, cell.color, channel) else 0
  }

  /** Byte b belongs to the colour channels of the pixels of cell (row, column). */
  predicate InCell(sc: Screen, row: nat, column: nat, b: nat)
    requires sc.scan > 0
  {
    && b % 4 < 3
    && MARGIN + column * 8 <= PixelX(sc, b) < MARGIN + column * 8 + 8
    && MARGIN + row * 8 <= PixelY(sc, b) < MARGIN + row * 8 + 8
  }

  function CellByte(sc: Screen, cell: Cell, row: nat, column: nat, b: nat): byte
    requires sc.scan > 0 && InCell(sc, row, column, b)
  {
    PixelOf(sc.format, cell, PixelX(sc, b) - (MARGIN + column * 8), PixelY(sc, b) - (MARGIN + row * 8), b % 4)
  }

  /** Distinct cells share no byte. */
  lemma CellsApart(sc: Screen, row: nat, column: nat, row': nat, column': nat, b: nat)
    requires sc.scan > 0 && InCell(sc, row, column, b) && InCell(sc, row', column', b)
    ensures row == row' && column == column'
  {}

  /** The framebuffer shows the grid: drawn cells their glyph, every other byte the background. */
  ghost predicate Shows(sc: Screen, fb: seq<byte>, cells: map<(nat, nat), Cell>, background: seq<byte>)
    requires sc.scan > 0
  {
    && |fb| == |background| == sc.scan * sc.height * 4
    && (forall b, row: nat, column: nat :: 0 <= b < |fb| && (row, column) in cells && InCell(sc, row, column, b) ==>
          fb[b] == CellByte(sc, cells[(row, column)], row, column, b))
    && (forall b :: 0 <= b < |fb| && Uncovered(sc, cells, b) ==> fb[b] == background[b])
  }

  ghost predicate Uncovered(sc: Screen, cells: map<(nat, nat), Cell>, b: nat)
    requires sc.scan > 0
  {
    forall row: nat, column: nat :: (row, column) in cells ==> !InCell(sc, row, column, b)
  }

  ghost predicate Drawn(sc: Screen, fb: seq<byte>, fb': seq<byte>, cell: Cell, row: nat, column: nat)
    requires sc.scan > 0
  {
    && |fb'| == |fb|
    && forall b :: 0 <= b < |fb| ==>
         fb'[b] == if InCell(sc, row, column, b) then CellByte(sc, cell, row, column, b) else fb[b]
  }

  /** Drawing one cell updates the grid at that cell. */
  lemma DrawShows(sc: Screen, fb: seq<byte>, fb': seq<byte>, cells: map<(nat, nat), Cell>, background: seq<byte>,
                  cell: Cell, row: nat, column: nat)
    requires sc.scan > 0 && Shows(sc, fb, cells, background) && Drawn(sc, fb, fb', cell, row, column)
    ensures Shows(sc, fb', cells[(row, column) := cell], background)
  {
    hide PixelX, PixelY, PixelOf;
    var cells' := cells[(row, column) := cell];
    forall b, r: nat, c: nat | 0 <= b < |fb| && (r, c) in cells' && InCell(sc, r, c, b)
      ensures fb'[b] == CellByte(sc, cells'[(r, c)], r, c, b)
    {
      if (r, c) != (row, column) && InCell(sc, row, column, b) { CellsApart(sc, r, c, row, column, b); }
    }
    forall b | 0 <= b < |fb| && Uncovered(sc, cells', b) ensures fb'[b] == background[b] {
      assert (row, column) in cells';
      assert Uncovered(sc, cells, b);
    }
  }

  // ----- Plain text, pixel by pixel

  /** The pixel (x, y) has this colour, in the byte order of the screen's format. */
  ghost predicate PixelIs(sc: Screen, fb: seq<byte>, x: nat, y: nat, color: Color) {
    var at := (x + y * sc.scan) * 4;
    && at + 3 <= |fb| && fb[at + 1] == color.g
    && (sc.format == RGB ==> fb[at] == color.r && fb[at + 2] == color.b)
    && (sc.format == BGR ==> fb[at] == color.b && fb[at + 2] == color.r)
  }

  /** Pixel (dx, dy) of character i: lit if bit dx of row dy of its glyph is set, black otherwise. */
  ghost predicate CharPixel(sc: Screen, font: Font, fb: seq<byte>, s: State, text: string, i: nat, dx: nat, dy: nat)
    requires sc.Usable() && i < |text| && dx < 8 && dy < 8
  {
    var at := CellOf(sc, Position(sc, s), i);
    var glyph: Glyph := if text[i] in font then font[text[i]] else font[' '];
    DivNonNegative(glyph[dy], Pow2(dx));
    PixelIs(sc, fb, 16 + 8 * at.1 + dx, 16 + 8 * at.0 + dy,
            if glyph[dy] / Pow2(dx) % 2 == 1 then s.color else Color(0, 0, 0))
  }

  /** Every character of the text that was not overwritten a full grid later is on the screen. */
  ghost predicate TextShown(sc: Screen, font: Font, fb: seq<byte>, s: State, text: string)
    requires sc.Usable()
  {
    forall i: nat, dx: nat, dy: nat ::
      i < |text| <= i + sc.GridRows() * sc.GridColumns() && dx < 8 && dy < 8
      ==> CharPixel(sc, font, fb, s, text, i, dx, dy)
  }

  /** Position and cell of a character, written out. */
  lemma CellOfCharacter(sc: Screen, s: State, i: nat)
    requires CursorOk(sc, s)
    ensures var rows, columns := sc.GridRows(), sc.GridColumns();
            var q, at := (s.y * columns + s.x + i) % (rows * columns), CellOf(sc, Position(sc, s), i);
            at.0 * columns + at.1 == q && at.1 < columns && at.0 < rows
  {
    var rows, columns := sc.GridRows(), sc.GridColumns();
    GridCell(rows, columns, s.y, s.x);
    var q := (s.y * columns + s.x + i) % (rows * columns);
    DivModSplit(q, columns);
    QuotientBelow(q, columns, rows);
  }

  lemma QuotientBelow(q: nat, c: nat, r: nat)
    requires c > 0 && q < r * c
    ensures 0 <= q / c < r
  {
    DivModSplit(q, c);
    var t := q / c - r;
    assert c * t == c * (q / c) - r * c;
    MultipleIsFar(c, t);
  }

  lemma CellPixel(sc: Screen, fb: seq<byte>, cells: map<(nat, nat), Cell>, background: seq<byte>,
                  row: nat, column: nat, dx: nat, dy: nat, channel: nat)
    requires sc.scan > 0 && Shows(sc, fb, cells, background) && (row, column) in cells
    requires dx < 8 && dy < 8 && channel < 3
    requires MARGIN + column * 8 + dx < sc.scan && MARGIN + row * 8 + dy < sc.height
    ensures var b := ByteAt(sc, MARGIN + column * 8 + dx, MARGIN + row * 8 + dy, channel);
            b < |fb| && fb[b] == PixelOf(sc.format, cells[(row, column)], dx, dy, channel)
  {
    hide ByteAt, PixelX, PixelY, PixelOf;
    var x, y := MARGIN + column * 8 + dx, MARGIN + row * 8 + dy;
    var b := ByteAt(sc, x, y, channel);
    ByteInBuffer(sc, x, y, channel);
    ByteCoordinates(sc, b, x, y, channel);
    assert InCell(sc, row, column, b);
  }

  lemma GlyphBit(row: byte, dx: nat)
    ensures row / Pow2(dx) >= 0 && (And(row, Pow2(dx)) != 0 <==> row / Pow2(dx) % 2 == 1)
  {
    DivNonNegative(row, Pow2(dx));
    AndPow2(row, dx);
    BitIsDigit(row, dx);
  }

  /** The pixel (dx, dy) of a drawn cell. */
  lemma CellShown(sc: Screen, fb: seq<byte>, cells: map<(nat, nat), Cell>, background: seq<byte>,
                  at: (nat, nat), dx: nat, dy: nat)
    requires sc.scan > 0 && Shows(sc, fb, cells, background) && at in cells && dx < 8 && dy < 8
    requires MARGIN + at.1 * 8 + dx < sc.scan && MARGIN + at.0 * 8 + dy < sc.height
    ensures cells[at].glyph[dy] / Pow2(dx) >= 0
    ensures PixelIs(sc, fb, 16 + 8 * at.1 + dx, 16 + 8 * at.0 + dy,
                    if cells[at].glyph[dy] / Pow2(dx) % 2 == 1 then cells[at].color else Color(0, 0, 0))
  {
    hide Shows, And, Pow2;
    GlyphBit(cells[at].glyph[dy], dx);
    CellPixel(sc, fb, cells, background, at.0, at.1, dx, dy, 0);
    CellPixel(sc, fb, cells, background, at.0, at.1, dx, dy, 1);
    CellPixel(sc, fb, cells, background, at.0, at.1, dx, dy, 2);
  }

  lemma CharPixelShown(sc: Screen, font: Font, s: State, text: string, fb: seq<byte>, background: seq<byte>,
                       i: nat, dx: nat, dy: nat)
    requires CursorOk(sc, s) && s.mode.Print? && Printable(text) && sc.scan > 0
    requires Shows(sc, fb, Run(sc, font, s, text).cells, background)
    requires i < |text| <= i + sc.GridRows() * sc.GridColumns() && dx < 8 && dy < 8
    ensures CharPixel(sc, font, fb, s, text, i, dx, dy)
  {
    hide Run, CellOf, Position, Shows, Pow2, Printable, PixelIs;
    var cells, at := Run(sc, font, s, text).cells, CellOf(sc, Position(sc, s), i);
    PlainTextCells(sc, font, s, text, i);
    CellOfCharacter(sc, s, i);
    CursorPixels(sc, s.(x := at.1, y := at.0));
    CellShown(sc, fb, cells, background, at, dx, dy);
  }

  /** A framebuffer that shows the grid shows plain text pixel by pixel. */
  lemma PlainTextShown(sc: Screen, font: Font, s: State, text: string, fb: seq<byte>, background: seq<byte>)
    requires CursorOk(sc, s) && s.mode.Print? && Printable(text) && sc.scan > 0
    requires Shows(sc, fb, Run(sc, font, s, text).cells, background)
    ensures TextShown(sc, font, fb, s, text)
  {
    hide Run, Shows, CharPixel, CursorOk, Printable;
    UsableScreen(sc, s);
    forall i: nat, dx: nat, dy: nat | i < |text| <= i + sc.GridRows() * sc.GridColumns() && dx < 8 && dy < 8
      ensures CharPixel(sc, font, fb, s, text, i, dx, dy)
    {
      CharPixelShown(sc, font, s, text, fb, background, i, dx, dy);
    }
  }

  class Device {
    const sc: Screen
    const font: Font
    const framebuffer: array<byte>
    var cursorX: nat
    var cursorY: nat
    var color: Color
    var mode: Mode
    ghost var cells: map<(nat, nat), Cell>
    ghost var background: seq<byte>

    ghost function Value(): State
      reads this
    {
      State(cursorX, cursorY, color, mode, cells)
    }

    ghost predicate Valid()
      reads this, framebuffer
    {
      CursorOk(sc, Value()) && sc.scan > 0 && Shows(sc, framebuffer[..], cells, background)
    }

    /** `init` */
    constructor (sc: Screen, font: Font, framebuffer: array<byte>)
      requires sc.Usable() && framebuffer.Length == sc.scan * sc.height * 4
      ensures Valid() && Value() == INITIAL_STATE && background == framebuffer[..]
      ensures cursorX == cursorY == 0 && color == Color(255, 255, 255) && mode.Print? && cells == map[]
      ensures this.sc == sc && this.font == font && this.framebuffer == framebuffer
    {
      this.sc := sc;
      this.font := font;
      this.framebuffer := framebuffer;
      cursorX, cursorY := 0, 0;
      color, mode := Color(255, 255, 255), Mode.Print;
      cells := map[];
      background := framebuffer[..];
    }

    /** `clear` blanks the framebuffer and leaves the cursor where it is. */
    method Clear()
      requires Valid()
      modifies this`cells, this`background, framebuffer
      ensures Valid() && cells == map[] && forall b :: 0 <= b < |background| ==> background[b] == 0
    {
      for i := 0 to framebuffer.Length
        invariant forall b :: 0 <= b < i ==> framebuffer[b] == 0
      {
        framebuffer[i] := 0;
      }
      cells := map[];
      background := framebuffer[..];
    }

    /** Three bytes of one pixel. */
    method PutPixel(x: nat, y: nat, on: bool)
      requires sc.scan > 0 && framebuffer.Length == sc.scan * sc.height * 4 && x < sc.scan && y < sc.height
      modifies framebuffer
      ensures forall b :: 0 <= b < framebuffer.Length ==>
                framebuffer[b] == if PixelX(sc, b) == x && PixelY(sc, b) == y && b % 4 < 3
                                  then (if on then Channel(sc.format, color, b % 4) else 0)
                                  else old(framebuffer[b])
    {
      ByteInBuffer(sc, x, y, 2);
      var at := ByteAt(sc, x, y, 0);
      if on {
        framebuffer[at] := if sc.format == BGR then color.b else color.r;
        framebuffer[at + 1] := color.g;
        framebuffer[at + 2] := if sc.format == BGR then color.r else color.b;
      } else {
        framebuffer[at] := 0;
        framebuffer[at + 1] := 0;
        framebuffer[at + 2] := 0;
      }
      hide ByteAt, PixelX, PixelY;
      forall b | 0 <= b < framebuffer.Length
        ensures framebuffer[b] == if PixelX(sc, b) == x && PixelY(sc, b) == y && b % 4 < 3
                                  then (if on then Channel(sc.format, color, b % 4) else 0)
                                  else old(framebuffer[b])
      {
        PixelBytes(sc, b, x, y, at);
      }
    }

    /** The two loops over a glyph. */
    method DrawGlyph(cell: Cell)
      requires Valid() && cell.color == color
      modifies framebuffer
      ensures Drawn(sc, old(framebuffer[..]), framebuffer[..], cell, cursorY, cursorX)
    {
      hide PixelX, PixelY, Shows, Channel, And, Pow2;
      CursorPixels(sc, Value());
      ShowsLength(sc, framebuffer[..], cells, background);
      ghost var fb := framebuffer[..];
      var xStart, yStart := MARGIN + cursorX * 8, MARGIN + cursorY * 8;
      for y := 0 to 8
        invariant forall b :: 0 <= b < framebuffer.Length ==>
                    framebuffer[b] == if InCell(sc, cursorY, cursorX, b) && PixelY(sc, b) < yStart + y
                                      then CellByte(sc, cell, cursorY, cursorX, b) else fb[b]
      {
        for x := 0 to 8
          invariant forall b :: 0 <= b < framebuffer.Length ==>
                      framebuffer[b] == if InCell(sc, cursorY, cursorX, b)
                                           && (PixelY(sc, b) < yStart + y
                                               || (PixelY(sc, b) == yStart + y && PixelX(sc, b) < xStart + x))
                                        then CellByte(sc, cell, cursorY, cursorX, b) else fb[b]
        {
          PutPixel(xStart + x, yStart + y, And(cell.glyph[y], Pow2(x)) != 0);
        }
      }
    }

    /** `print_char` */
    method PrintChar(c: char)
      requires Valid()
      modifies this`cursorX, this`cursorY, this`color, this`mode, this`cells, framebuffer
      ensures Valid() && Value() == Step(sc, font, old(Value()), c)
    {
      hide Shows, Drawn;
      match mode {
        case SetR =>
          color, mode := color.(r := AsByte(c)), SetG;
        case SetG =>
          color, mode := color.(g := AsByte(c)), SetB;
        case SetB =>
          color, mode := color.(b := AsByte(c)), Mode.Print;
        case Print =>
          if c == '\U{1B}' {
            mode := SetR;
          } else if c == '\n' {
            NewLine();
          } else {
            var cell := Cell(if c in font then font[c] else font[' '], color);
            ghost var fb := framebuffer[..];
            DrawGlyph(cell);
            DrawShows(sc, fb, framebuffer[..], cells, background, cell, cursorY, cursorX);
            cells := cells[(cursorY, cursorX) := cell];
            AdvanceCursor();
          }
      }
    }

    /** `advance_cursor` */
    method AdvanceCursor()
      requires Valid()
      modifies this`cursorX, this`cursorY
      ensures Valid() && Value() == Advanced(sc, old(Value()))
    {
      hide Shows;
      cursorX := cursorX + 1;
      if cursorX >= sc.Columns() {
        cursorY := cursorY + 1;
        cursorX := 0;
        if cursorY >= sc.Rows() {
          cursorY := 0;
        }
      }
    }

    /** `new_line` */
    method NewLine()
      requires Valid()
      modifies this`cursorX, this`cursorY
      ensures Valid() && Value() == old(Value()).(x := 0, y := NextRow(sc, old(cursorY)))
    {
      hide Shows;
      cursorX := 0;
      cursorY := cursorY + 1;
      if cursorY >= sc.Rows() {
        cursorY := 0;
      }
    }

    /** `print`: the framebuffer shows the grid that the text produces. */
    method Print(msg: string)
      requires Valid()
      modifies this`cursorX, this`cursorY, this`color, this`mode, this`cells, framebuffer
      ensures Valid() && Value() == Run(sc, font, old(Value()), msg)
      ensures sc.Usable() && (old(mode).Print? && Printable(msg) ==>
                                TextShown(sc, font, framebuffer[..], old(Value()), msg))
    {
      hide Shows, CursorOk, Step, TextShown, Printable;
      ghost var s := Value();
      UsableScreen(sc, s);
      for i := 0 to |msg|
        invariant Valid() && sc.Usable() && Run(sc, font, Value(), msg[i..]) == Run(sc, font, s, msg)
      {
        assert msg[i..][1..] == msg[i + 1..];
        PrintChar(msg[i]);
      }
      if s.mode.Print? && Printable(msg) {
        PlainTextShown(sc, font, s, msg, framebuffer[..], background);
      }
    }
  }

  lemma UsableScreen(sc: Screen, s: State)
    requires CursorOk(sc, s)
    ensures sc.Usable()
  {}

  lemma ShowsLength(sc: Screen, fb: seq<byte>, cells: map<(nat, nat), Cell>, background: seq<byte>)
    requires sc.scan > 0 && Shows(sc, fb, cells, background)
    ensures |fb| == sc.scan * sc.height * 4
  {}

  /** All pixels of the cell under the cursor lie on the screen. */
  lemma CursorPixels(sc: Screen, s: State)
    requires CursorOk(sc, s)
    ensures MARGIN + s.x * 8 + 8 <= sc.scan && MARGIN + s.y * 8 + 8 <= sc.height
  {}

  lemma PixelBytes(sc: Screen, b: nat, x: nat, y: nat, at: nat)
    requires sc.scan > 0 && x < sc.scan && at == ByteAt(sc, x, y, 0)
    ensures PixelX(sc, b) == x && PixelY(sc, b) == y && b % 4 < 3 <==> at <= b < at + 3
    ensures at <= b < at + 3 ==> b % 4 == b - at
  {
    assert b % 4 == 0 || b % 4 == 1 || b % 4 == 2 || b % 4 == 3;
    ByteCoordinates(sc, b, x, y, b % 4);
  }
}

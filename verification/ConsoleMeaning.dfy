/**
 * What each character does to the terminal of module `ConsoleSpec` (GraphicsConsoleDxe/GraphicsConsole.c), cell by cell
 * and by its code: nothing here is stated through the functions that the terminal is made of.
 */
module ConsoleMeaning {
  import opened Arithmetic
  import opened ConsoleSpec
  import opened Console

  // The two colours of an attribute: four bits and three
  function Front(g: TextMode, a: Attribute): Pixel { g.color(a % 16) }
  function Back(g: TextMode, a: Attribute): Pixel { g.color(a / 16 % 8) }

  /** An attribute f + 16 * b draws with colour f on colour b, whether its width bit is set or not. */
  lemma ColorsMean(g: TextMode, f: nat, b: nat)
    requires f < 16 && b < 8
    ensures Foreground(g, f + 16 * b) == Foreground(g, f + 16 * b + 128) == g.color(f)
    ensures Background(g, f + 16 * b) == Background(g, f + 16 * b + 128) == g.color(b)
  {
    Digits(f + 16 * b, f, b);
    Digits(f + 16 * b + 128, f, b + 8);
  }

  lemma FrontAndBack(g: TextMode, a: Attribute)
    ensures Foreground(g, a) == Front(g, a) && Background(g, a) == Back(g, a)
  {
    Digits(a, a % 16, a / 16);
  }

  lemma Digits(a: nat, f: nat, b: nat)
    requires f < 16 && b < 16 && a == 16 * b + f
    ensures a % 128 % 16 == f && a % 128 / 16 == b % 8
  {
    var high := if b < 8 then b else b - 8;
    QuotientIs(a, 128, if b < 8 then 0 else 1, 16 * high + f);
    QuotientIs(16 * high + f, 16, high, f);
    QuotientIs(b, 8, if b < 8 then 0 else 1, high);
  }

  predicate Filled(b: Block, c: Pixel) {
    forall y, x :: 0 <= y < GLYPH_HEIGHT && 0 <= x < GLYPH_WIDTH ==> b[y][x] == c
  }

  // Every row of text has moved up by one, the last row is filled with a colour, and nothing else has changed.
  ghost predicate MovedUp(g: TextMode, before: Screen, after: Screen, c: Pixel) {
    && before.Keys == after.Keys
    && (forall p :: p in before && p.col >= g.cols ==> after[p] == before[p])
    && (forall p :: p in before && p.col < g.cols && p.row + 1 < g.rows ==>
          Cell(p.row + 1, p.col) in before && after[p] == before[Cell(p.row + 1, p.col)])
    && forall p :: p in before && p.col < g.cols && p.row + 1 == g.rows ==> Filled(after[p], c)
  }

  // One row further down, in a column: the text stays, or on the last row it moves up instead.
  ghost predicate RowFurther(g: TextMode, t: Term, u: Term, column: nat)
    requires g.rows > 0
  {
    && u.col == column && u.attr == t.attr
    && u.row == (if t.row + 1 < g.rows then t.row + 1 else g.rows - 1)
    && if t.row + 1 < g.rows then u.cells == t.cells else MovedUp(g, t.cells, u.cells, Back(g, t.attr))
  }

  lemma FilledBlank(c: Pixel)
    ensures Filled(Blank(c), c)
  {
  }

  lemma ScrollMovesUp(g: TextMode, s: Screen, a: Attribute)
    requires ValidMode(g) && Shape(g, s)
    ensures MovedUp(g, s, Scroll(g, s, Blank(Background(g, a))), Back(g, a))
  {
    var c := Background(g, a);
    var after := Scroll(g, s, Blank(c));
    FilledBlank(c);
    FrontAndBack(g, a);
    assert s.Keys == after.Keys;
  }

  lemma LineFeedIs(g: TextMode, t: Term)
    requires ValidMode(g) && Shape(g, t.cells) && t.row < g.rows
    ensures RowFurther(g, t, LineFeed(g, t), t.col)
  {
    if t.row + 1 >= g.rows {
      ScrollMovesUp(g, t.cells, t.attr);
    }
  }

  /** A line feed (10) goes to the next row and stays in its column. */
  lemma LineFeedMeans(g: TextMode, t: Term)
    requires InRange(g, t)
    ensures RowFurther(g, t, Step(g, t, 10), t.col)
  {
    LineFeedIs(g, t);
  }

  /** A carriage return (13) goes to column 0 and does nothing else. */
  lemma CarriageReturnMeans(g: TextMode, t: Term)
    ensures Step(g, t, 13) == Term(t.cells, t.row, 0, t.attr)
  {
  }

  /** The width markers (0xfff1, 0xfff0) set and clear the highest bit of the attribute and do nothing else. */
  lemma MarkersMean(g: TextMode, t: Term)
    ensures Step(g, t, 0xfff1) == Term(t.cells, t.row, t.col, t.attr % 128 + 128)
    ensures Step(g, t, 0xfff0) == Term(t.cells, t.row, t.col, t.attr % 128)
  {
  }

  /**
   * A backspace (8) goes to the cell before the cursor, in the row above if there is none in this one, and leaves a
   * narrow space in it; in the first cell of the screen it does nothing.
   */
  lemma BackspaceMeans(g: TextMode, t: Term)
    requires InRange(g, t)
    ensures t.row == t.col == 0 ==> Step(g, t, 8) == t
    ensures t.row > 0 || t.col > 0 ==>
      var p := if t.col > 0 then Cell(t.row, t.col - 1) else Cell(t.row - 1, g.cols - 1);
      Step(g, t, 8) == Term(t.cells[p := g.glyph(32, t.attr % 128, 0)], p.row, p.col, t.attr)
  {
  }

  predicate Prints(c: Char16) { c !in {0, 8, 10, 13, 0xfff0, 0xfff1} }

  // A character drawn at a cell: its glyph, or both halves of it side by side
  function Drawn(g: TextMode, s: Screen, p: Cell, c: Char16, a: Attribute): Screen {
    var first := s[p := g.glyph(c, a, 0)];
    if a < 128 then first else first[Cell(p.row, p.col + 1) := g.glyph(c, a, 1)]
  }

  // The terminal with a character drawn where the cursor is, and the cursor behind it or, at the end of the line, at
  // the start of the next one.
  ghost predicate Printed(g: TextMode, t: Term, u: Term, c: Char16)
    requires g.rows > 0
  {
    var v := t.(cells := Drawn(g, t.cells, Cell(t.row, t.col), c, t.attr));
    var column := t.col + (if t.attr < 128 then 1 else 2);
    if column < g.cols then u == v.(col := column) else RowFurther(g, v, u, 0)
  }

  lemma DrawnIs(g: TextMode, t: Term, c: Char16)
    requires InRange(g, t) && t.col + Width(t.attr) <= g.cols
    ensures Put(g, t, c).cells == Drawn(g, t.cells, Cell(t.row, t.col), c, t.attr) && Shape(g, Put(g, t, c).cells)
    ensures Printed(g, t, WrapIfFull(g, Put(g, t, c)), c)
  {
    var v := t.(cells := Drawn(g, t.cells, Cell(t.row, t.col), c, t.attr));
    assert Cell(t.row, t.col) in t.cells;
    assert t.attr >= 128 ==> Cell(t.row, t.col + 1) in t.cells;
    LineFeedIs(g, v.(col := 0));
    assert Put(g, t, c).(col := 0) == v.(col := 0);
  }

  /** Any other character that fits on the line is drawn where the cursor is. */
  lemma PrintMeans(g: TextMode, t: Term, c: Char16)
    requires InRange(g, t) && Prints(c) && (t.attr >= 128 ==> t.col + 1 < g.cols)
    ensures Printed(g, t, Step(g, t, c), c)
  {
    DrawnIs(g, t, c);
  }

  /**
   * A wide character that does not fit leaves a narrow space in the last cell of the line and is drawn at the start of
   * the next one.
   */
  lemma WideAtEdgeMeans(g: TextMode, t: Term, c: Char16) returns (u: Term)
    requires InRange(g, t) && Prints(c) && t.attr >= 128 && t.col + 1 == g.cols
    ensures RowFurther(g, t.(cells := t.cells[Cell(t.row, t.col) := g.glyph(32, t.attr % 128, 0)]), u, 0)
    ensures Printed(g, u, Step(g, t, c), c)
  {
    u := MakeRoom(g, t);
    RoomMade(g, t, t.(cells := t.cells[Cell(t.row, t.col) := g.glyph(32, t.attr % 128, 0)]));
    NewLineKeeps(g, t);
    DrawnIs(g, u, c);
    StepOf(g, t, c);
  }

  lemma StepOf(g: TextMode, t: Term, c: Char16)
    requires Prints(c)
    ensures Step(g, t, c) == WrapIfFull(g, Put(g, MakeRoom(g, t), c))
  {
  }

  lemma RoomMade(g: TextMode, t: Term, v: Term)
    requires InRange(g, t) && t.attr >= 128 && t.col + 1 == g.cols
    requires v == t.(cells := t.cells[Cell(t.row, t.col) := g.glyph(32, t.attr % 128, 0)])
    ensures MakeRoom(g, t) == NewLine(g, v) && RowFurther(g, v, MakeRoom(g, t), 0)
  {
    assert Cell(t.row, t.col) in t.cells;
    LineFeedIs(g, v.(col := 0));
  }

  lemma NewLineKeeps(g: TextMode, t: Term)
    requires InRange(g, t) && t.attr >= 128 && t.col + 1 == g.cols
    ensures InRange(g, MakeRoom(g, t)) && MakeRoom(g, t).col == 0 && MakeRoom(g, t).attr == t.attr
  {
    var v := t.(cells := SpaceAt(g, t.cells, Cell(t.row, t.col), t.attr), col := 0);
    assert Cell(t.row, t.col) in t.cells;
    assert Shape(g, v.cells);
    assert MakeRoom(g, t) == LineFeed(g, v);
  }

  /** A string is its characters one after the other, and a call puts the attribute back. */
  lemma RunMeans(g: TextMode, t: Term, s: seq<Char16>, c: Char16)
    ensures Run(g, t, []) == t && Run(g, t, s + [c]) == Step(g, Run(g, t, s), c)
    ensures var u := Run(g, t, s); Output(g, t, s) == Term(u.cells, u.row, u.col, t.attr)
  {
    RunAppend(g, t, s, [c]);
    assert [c][1..] == [];
    assert Run(g, Step(g, Run(g, t, s), c), []) == Step(g, Run(g, t, s), c);
  }

  /** Each of the other services changes just what it is for. */
  lemma ServicesMean(g: TextMode, t: Term, a: nat, column: nat, row: nat, on: bool)
    requires InRange(g, t)
    ensures ApplyOp(g, t, SetColors(a)) == if a < 128 then Term(t.cells, t.row, t.col, a) else t
    ensures ApplyOp(g, t, MoveTo(column, row)) ==
      if column < g.cols && row < g.rows then Term(t.cells, row, column, t.attr) else t
    ensures ApplyOp(g, t, ShowCursor(on)) == t
    ensures var u := ApplyOp(g, t, Clear);
      && u.row == u.col == 0 && u.attr == t.attr
      && forall p :: (p in u.cells <==> p in t.cells) && (p in u.cells ==> Filled(u.cells[p], Back(g, t.attr)))
  {
    FilledBlank(Background(g, t.attr));
    FrontAndBack(g, t.attr);
  }

  /** Calls take effect one after the other, and the cursor is as the last call that shows or hides it left it. */
  lemma {:induction false} CallsMean(g: TextMode, t: Term, ops: seq<Op>, op: Op, visible: bool)
    ensures ApplyAll(g, t, []) == t && LastShown(visible, []) == visible
    ensures ApplyAll(g, t, ops + [op]) == ApplyOp(g, ApplyAll(g, t, ops), op)
    ensures LastShown(visible, ops + [op]) == if op.ShowCursor? then op.on else LastShown(visible, ops)
    decreases |ops|
  {
    if ops == [] {
      assert (ops + [op])[1..] == [];
    } else {
      assert (ops + [op])[1..] == ops[1..] + [op];
      CallsMean(g, ApplyOp(g, t, ops[0]), ops[1..], op, if ops[0].ShowCursor? then ops[0].on else visible);
    }
  }

  /**
   * The cursor: in its cell, if it is visible, every pixel whose bit is set in the cursor's glyph, counted from the
   * right, is XOR-ed with the foreground colour; no other pixel and no other cell is different.
   */
  lemma CursorMeans(g: TextMode, s: Screen, p: Cell, q: Cell, a: Attribute, visible: bool, y: nat, x: nat)
    requires q in s && y < 19 && x < 8
    ensures q in Overlay(g, s, p, a, visible)
    ensures Overlay(g, s, p, a, visible)[q][y][x] ==
      if visible && q == p && g.cursor(y, 7 - x) then Pixel(s[q][y][x].raw ^ Front(g, a).raw) else s[q][y][x]
  {
    FrontAndBack(g, a);
    if visible && p == q {
      PixelOf(g, s[q], Foreground(g, a), y, x);
    }
  }

  lemma PixelOf(g: TextMode, b: Block, fg: Pixel, y: nat, x: nat)
    requires y < GLYPH_HEIGHT && x < GLYPH_WIDTH
    ensures Toggle(g, b, fg)[y][x] == if g.cursor(y, 7 - x) then Xor(b[y][x], fg) else b[y][x]
  {
    assert Toggle(g, b, fg)[y] == ToggleRow(g, y, b[y], fg);
  }
}

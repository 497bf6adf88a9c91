/**
 * What the graphics text console promises: a terminal that consumes one character at a time.
 *
 * The screen is a grid of character cells, each an 8x19 block of pixels.  `Step` is the terminal's
 * reaction to one character and `Run` folds it over a string.  `Overlay` is the cursor, which the
 * driver draws by XOR-ing the foreground colour into a fixed part of a cell.  Nothing here mentions
 * batching, nested calls or the order in which the driver toggles the cursor; module `Console`
 * proves that the driver refines this terminal.
 */
module ConsoleSpec {

  // EFI_GRAPHICS_OUTPUT_BLT_PIXEL_UNION, whose Raw field is what the cursor is XOR-ed into.
  datatype Pixel = Pixel(raw: bv32)

  function Xor(p: Pixel, q: Pixel): Pixel { Pixel(p.raw ^ q.raw) }

  lemma XorTwice(p: Pixel, q: Pixel)
    ensures Xor(Xor(p, q), q) == p
  {
  }

  const GLYPH_WIDTH: nat := 8
  const GLYPH_HEIGHT: nat := 19

  type PixelRow = r: seq<Pixel> | |r| == GLYPH_WIDTH witness seq(GLYPH_WIDTH, _ => Pixel(0))
  type Block = b: seq<PixelRow> | |b| == GLYPH_HEIGHT witness Blank(Pixel(0))

  type Char16 = c: int | 0 <= c < 0x10000
  const CHAR_NULL: Char16 := 0
  const CHAR_BACKSPACE: Char16 := 8
  const CHAR_LINEFEED: Char16 := 10
  const CHAR_CARRIAGE_RETURN: Char16 := 13
  const SPACE: Char16 := 32
  const NARROW_CHAR: Char16 := 0xfff0
  const WIDE_CHAR: Char16 := 0xfff1

  const CRLF_STRING: seq<Char16> := [CHAR_CARRIAGE_RETURN, CHAR_LINEFEED]
  const SPACE_STRING: seq<Char16> := [NARROW_CHAR, SPACE]

  predicate Printable(c: Char16) {
    c !in {CHAR_NULL, CHAR_BACKSPACE, CHAR_LINEFEED, CHAR_CARRIAGE_RETURN, WIDE_CHAR, NARROW_CHAR}
  }

  // The text attribute: bits 0..3 foreground, bits 4..6 background, bit 7 "wide".
  type Attribute = a: int | 0 <= a < 256

  predicate Wide(a: Attribute) { a >= 128 }
  function SetWide(a: Attribute): Attribute { if Wide(a) then a else a + 128 }
  function ClearWide(a: Attribute): Attribute { a % 128 }

  // A character cell.  Column `cols` is the strip to the right of the text area.
  datatype Cell = Cell(row: nat, col: nat)
  type Screen = map<Cell, Block>

  /**
   * A text mode.  `glyph(c, a, half)` is what the font draws for character `c` with attribute `a` in
   * its first (0) or second (1) cell; any font is allowed.  `cursor(y, x)` says whether bit x of row y
   * of the cursor's glyph is set; any bitmap is allowed.  `color` is the table of the 16 text colours.
   * `margin` says whether a whole cell fits on the screen to the right of the last column: a block
   * transfer that does not fit is refused.
   */
  datatype TextMode = TextMode(cols: nat, rows: nat, margin: bool,
                               glyph: (Char16, Attribute, nat) -> Block,
                               cursor: (nat, nat) -> bool,
                               color: nat -> Pixel)

  // GetTextColors: the width bit is not part of the colours.
  function Hue(a: Attribute): nat { a % 128 }
  function Foreground(g: TextMode, a: Attribute): Pixel { g.color(Hue(a) % 16) }
  function Background(g: TextMode, a: Attribute): Pixel { g.color(Hue(a) / 16) }

  predicate ValidMode(g: TextMode) { 2 <= g.cols && 1 <= g.rows }

  ghost predicate Shape(g: TextMode, s: Screen) {
    forall p: Cell :: p in s <==> p.row < g.rows && (p.col < g.cols || (g.margin && p.col == g.cols))
  }

  function Blank(c: Pixel): (b: seq<PixelRow>)
    ensures |b| == GLYPH_HEIGHT
  { 
    seq(GLYPH_HEIGHT, _ => seq(GLYPH_WIDTH, _ => c))
  }

  datatype Term = Term(cells: Screen, row: nat, col: nat, attr: Attribute)

  ghost predicate InRange(g: TextMode, t: Term) {
    && ValidMode(g) && Shape(g, t.cells)
    && t.row < g.rows && t.col < g.cols
  }

  // ---------- the one-character terminal ----------

  // Every text row takes the contents of the row below it; the last one becomes blank.
  function Scroll(g: TextMode, s: Screen, blank: Block): Screen {
    map p | p in s ::
      if p.col >= g.cols then s[p]
      else if Cell(p.row + 1, p.col) in s then s[Cell(p.row + 1, p.col)]
      else blank
  }

  function LineFeed(g: TextMode, t: Term): Term {
    if t.row + 1 >= g.rows then t.(cells := Scroll(g, t.cells, Blank(Background(g, t.attr)))) else t.(row := t.row + 1)
  }

  function NewLine(g: TextMode, t: Term): Term {
    LineFeed(g, t.(col := 0))
  }

  function WrapIfFull(g: TextMode, t: Term): Term {
    if t.col >= g.cols then NewLine(g, t) else t
  }

  function SpaceAt(g: TextMode, s: Screen, p: Cell, a: Attribute): Screen {
    s[p := g.glyph(SPACE, ClearWide(a), 0)]
  }

  // A wide character that does not fit on this line leaves a space there and goes to the next line.
  function MakeRoom(g: TextMode, t: Term): Term {
    if Wide(t.attr) && t.col + 2 > g.cols
    then NewLine(g, t.(cells := SpaceAt(g, t.cells, Cell(t.row, t.col), t.attr)))
    else t
  }

  function Width(a: Attribute): nat { if Wide(a) then 2 else 1 }

  function DrawGlyph(g: TextMode, s: Screen, row: nat, col: nat, c: Char16, a: Attribute): Screen {
    var s1 := s[Cell(row, col) := g.glyph(c, a, 0)];
    if Wide(a) then s1[Cell(row, col + 1) := g.glyph(c, a, 1)] else s1
  }

  function Put(g: TextMode, t: Term, c: Char16): Term {
    t.(cells := DrawGlyph(g, t.cells, t.row, t.col, c, t.attr), col := t.col + Width(t.attr))
  }

  function Backspace(g: TextMode, t: Term): Term {
    if t.col > 0 then
      t.(cells := SpaceAt(g, t.cells, Cell(t.row, t.col - 1), t.attr), col := t.col - 1)
    else if t.row > 0 && g.cols > 0 then
      t.(cells := SpaceAt(g, t.cells, Cell(t.row - 1, g.cols - 1), t.attr), row := t.row - 1, col := g.cols - 1)
    else t
  }

  function Step(g: TextMode, t: Term, c: Char16): Term {
    if c == CHAR_BACKSPACE then Backspace(g, t)
    else if c == CHAR_LINEFEED then LineFeed(g, t)
    else if c == CHAR_CARRIAGE_RETURN then t.(col := 0)
    else if c == WIDE_CHAR then t.(attr := SetWide(t.attr))
    else if c == NARROW_CHAR then t.(attr := ClearWide(t.attr))
    else WrapIfFull(g, Put(g, MakeRoom(g, t), c))
  }

  function Run(g: TextMode, t: Term, s: seq<Char16>): Term
    decreases |s|
  {
    if s == [] then t else Run(g, Step(g, t, s[0]), s[1..])
  }

  // What one OutputString call does: the attribute is put back at the end.
  function Output(g: TextMode, t: Term, s: seq<Char16>): Term {
    Run(g, t, s).(attr := t.attr)
  }

  // ---------- properties of the terminal ----------

  lemma StepInRange(g: TextMode, t: Term, c: Char16)
    requires InRange(g, t)
    ensures InRange(g, Step(g, t, c))
  {
  }

  lemma {:induction false} RunInRange(g: TextMode, t: Term, s: seq<Char16>)
    requires InRange(g, t)
    ensures InRange(g, Run(g, t, s))
    decreases |s|
  {
    if s != [] {
      StepInRange(g, t, s[0]);
      RunInRange(g, Step(g, t, s[0]), s[1..]);
    }
  }

  lemma {:induction false} RunAppend(g: TextMode, t: Term, a: seq<Char16>, b: seq<Char16>)
    ensures Run(g, t, a + b) == Run(g, Run(g, t, a), b)
    decreases |a|
  {
    if a == [] {
      assert a + b == b;
    } else {
      assert (a + b)[1..] == a[1..] + b;
      RunAppend(g, Step(g, t, a[0]), a[1..], b);
    }
  }

  predicate NoMarkers(s: seq<Char16>) { WIDE_CHAR !in s && NARROW_CHAR !in s }

  lemma {:induction false} RunKeepsAttribute(g: TextMode, t: Term, s: seq<Char16>)
    requires NoMarkers(s)
    ensures Run(g, t, s).attr == t.attr
    decreases |s|
  {
    if s != [] {
      RunKeepsAttribute(g, Step(g, t, s[0]), s[1..]);
    }
  }

  /** Printing a+b in one call is printing a and then b, when a has no width markers. */
  lemma OutputAppend(g: TextMode, t: Term, a: seq<Char16>, b: seq<Char16>)
    requires NoMarkers(a)
    ensures Output(g, t, a + b) == Output(g, Output(g, t, a), b)
  {
    RunAppend(g, t, a, b);
    RunKeepsAttribute(g, t, a);
  }

  /**
   * A backspace takes back the narrow character just printed, also across a line end.  In the last
   * cell of the screen the text has scrolled meanwhile, so the erased cell is one row further up; on a
   * one-row screen that cell is gone and the backspace does nothing.
   */
  lemma BackspaceErases(g: TextMode, t: Term, c: Char16)
    requires InRange(g, t) && Printable(c) && !Wide(t.attr)
    ensures Step(g, Step(g, t, c), CHAR_BACKSPACE) ==
      if t.row + 1 < g.rows || t.col + 1 < g.cols then t.(cells := SpaceAt(g, t.cells, Cell(t.row, t.col), t.attr))
      else
        var u := NewLine(g, Put(g, t, c));
        if g.rows == 1 then u
        else u.(cells := SpaceAt(g, u.cells, Cell(t.row - 1, t.col), t.attr), row := t.row - 1, col := t.col)
  {
    var u := Put(g, t, c);
    assert SpaceAt(g, u.cells, Cell(t.row, t.col), t.attr) == SpaceAt(g, t.cells, Cell(t.row, t.col), t.attr);
    assert Step(g, t, c) == WrapIfFull(g, u);
    assert Step(g, Step(g, t, c), CHAR_BACKSPACE) == Backspace(g, WrapIfFull(g, u));
  }

  // ---------- the cursor ----------

  // Bit 0 of a glyph row is its rightmost pixel.
  function ToggleRow(g: TextMode, y: nat, row: PixelRow, fg: Pixel): PixelRow {
    seq(GLYPH_WIDTH, x requires 0 <= x < GLYPH_WIDTH => if g.cursor(y, 7 - x) then Xor(row[x], fg) else row[x])
  }

  function Toggle(g: TextMode, b: Block, fg: Pixel): Block {
    seq(GLYPH_HEIGHT, y requires 0 <= y < GLYPH_HEIGHT => ToggleRow(g, y, b[y], fg))
  }

  lemma ToggleTwice(g: TextMode, b: Block, fg: Pixel)
    ensures Toggle(g, Toggle(g, b, fg), fg) == b
  {
    var twice := Toggle(g, Toggle(g, b, fg), fg);
    forall y | 0 <= y < GLYPH_HEIGHT ensures twice[y] == b[y] {
      ToggleRowTwice(g, y, b[y], fg);
    }
  }

  lemma ToggleRowTwice(g: TextMode, y: nat, row: PixelRow, fg: Pixel)
    ensures ToggleRow(g, y, ToggleRow(g, y, row, fg), fg) == row
  {
    forall x | 0 <= x < GLYPH_WIDTH
      ensures ToggleRow(g, y, ToggleRow(g, y, row, fg), fg)[x] == row[x]
    {
      XorTwice(row[x], fg);
    }
  }

  function Overlay(g: TextMode, s: Screen, p: Cell, a: Attribute, visible: bool): Screen {
    if visible && p in s then s[p := Toggle(g, s[p], Foreground(g, a))] else s
  }

  lemma OverlayTwice(g: TextMode, s: Screen, p: Cell, a: Attribute, a': Attribute, visible: bool)
    requires Foreground(g, a) == Foreground(g, a')
    ensures Overlay(g, Overlay(g, s, p, a, visible), p, a', visible) == s
  {
    if visible && p in s {
      ToggleTwice(g, s[p], Foreground(g, a));
    }
  }
}

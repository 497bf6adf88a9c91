/**
 * The graphics text console driver (GraphicsConsoleDxe/GraphicsConsole.c).
 *
 * `OutputString` prints whole runs of characters at once, calls itself to print spaces and line ends,
 * and toggles the cursor before and after every such call.  It is proved here to refine the
 * one-character terminal of module `ConsoleSpec`, with the cursor showing at exactly the cursor cell
 * whenever a service returns.
 */
module Console {
  import opened ConsoleSpec

  datatype Status = Success | Unsupported

  // ---------- drawing a run of characters ----------

  // The font call: `s` drawn from (row, col) on, each character as wide as the attribute says.
  function DrawRun(g: TextMode, scr: Screen, row: nat, col: nat, s: seq<Char16>, a: Attribute): Screen
    decreases |s|
  {
    if s == [] then scr
    else DrawRun(g, DrawGlyph(g, scr, row, col, s[0], a), row, col + Width(a), s[1..], a)
  }

  lemma {:induction false} DrawRunShape(g: TextMode, scr: Screen, row: nat, col: nat, s: seq<Char16>, a: Attribute)
    requires Shape(g, scr) && row < g.rows && col + Width(a) * |s| <= g.cols
    ensures Shape(g, DrawRun(g, scr, row, col, s, a))
    decreases |s|
  {
    if s != [] {
      DrawRunShape(g, DrawGlyph(g, scr, row, col, s[0], a), row, col + Width(a), s[1..], a);
    }
  }

  // The first character drawn covers whatever was on its cell, the cursor included.
  lemma DrawRunCoversCursor(g: TextMode, scr: Screen, row: nat, col: nat, s: seq<Char16>, a: Attribute, visible: bool)
    requires s != []
    ensures DrawRun(g, Overlay(g, scr, Cell(row, col), a, visible), row, col, s, a) == DrawRun(g, scr, row, col, s, a)
  {
    OverlayCovered(g, scr, Cell(row, col), a, visible, g.glyph(s[0], a, 0));
  }

  predicate AllPrintable(s: seq<Char16>) { forall i :: 0 <= i < |s| ==> Printable(s[i]) }

  // A run that fits on the line is the same as its characters one at a time.
  lemma {:induction false} RunPrintable(g: TextMode, t: Term, s: seq<Char16>)
    requires ValidMode(g) && AllPrintable(s)
    requires t.col < g.cols && t.col + Width(t.attr) * |s| <= g.cols
    ensures Run(g, t, s) == WrapIfFull(g, t.(cells := DrawRun(g, t.cells, t.row, t.col, s, t.attr),
                                             col := t.col + Width(t.attr) * |s|))
    decreases |s|
  {
    if s != [] {
      var t1 := Put(g, t, s[0]);
      assert Step(g, t, s[0]) == WrapIfFull(g, t1);
      if |s| > 1 {
        RunPrintable(g, t1, s[1..]);
      } else {
        assert s[1..] == [];
      }
    }
  }

  // Going to the next line for a wide character and then printing it is one step.
  lemma MakeRoomFirst(g: TextMode, t: Term, c: Char16)
    requires ValidMode(g) && Printable(c)
    ensures Step(g, MakeRoom(g, t), c) == Step(g, t, c)
  {
  }

  lemma RunTwo(g: TextMode, t: Term, a: Char16, b: Char16)
    ensures Run(g, t, [a, b]) == Step(g, Step(g, t, a), b)
  {
    assert [a, b][1..] == [b] && [b][1..] == [];
    var u := Step(g, t, a);
    assert Run(g, u, [b]) == Run(g, Step(g, u, b), []);
  }

  lemma OverlayCovered(g: TextMode, s: Screen, p: Cell, a: Attribute, visible: bool, b: Block)
    ensures Overlay(g, s, p, a, visible)[p := b] == s[p := b]
  {
  }

  // The terminal with a run of characters drawn and the cursor behind it, before any wrapping.
  function Drawn(g: TextMode, t: Term, run: seq<Char16>): Term {
    t.(cells := DrawRun(g, t.cells, t.row, t.col, run, t.attr), col := t.col + Width(t.attr) * |run|)
  }

  lemma DrawnRun(g: TextMode, t: Term, ws: seq<Char16>, start: nat, count: nat, showing: bool)
    requires ValidMode(g) && Shape(g, t.cells) && start + count <= |ws| && AllPrintable(ws[start..start + count])
    requires t.row < g.rows && t.col < g.cols && t.col + Width(t.attr) * count <= g.cols
    requires showing ==> count > 0
    ensures Run(g, t, ws[start..]) == Run(g, WrapIfFull(g, Drawn(g, t, ws[start..start + count])), ws[start + count..])
    ensures Shape(g, Drawn(g, t, ws[start..start + count]).cells)
    ensures DrawRun(g, Overlay(g, t.cells, Cell(t.row, t.col), t.attr, showing), t.row, t.col,
                    ws[start..start + count], t.attr)
         == Drawn(g, t, ws[start..start + count]).cells
  {
    var run, rest := ws[start..start + count], ws[start + count..];
    assert ws[start..] == run + rest;
    RunAppend(g, t, run, rest);
    RunPrintable(g, t, run);
    DrawRunShape(g, t.cells, t.row, t.col, run, t.attr);
    if count > 0 {
      DrawRunCoversCursor(g, t.cells, t.row, t.col, run, t.attr, showing);
    }
  }

  lemma RunStep(g: TextMode, t: Term, ws: seq<Char16>, i: nat)
    requires i < |ws|
    ensures Run(g, t, ws[i..]) == Run(g, Step(g, t, ws[i]), ws[i + 1..])
  {
    assert ws[i..][1..] == ws[i + 1..];
  }

  // The terminal at the end of the printing case.
  function Finished(g: TextMode, t: Term, full: bool): Term {
    if full then MakeRoom(g, t) else WrapIfFull(g, t)
  }

  lemma RunFinished(g: TextMode, t: Term, ws: seq<Char16>, i: nat, full: bool)
    requires ValidMode(g) && i <= |ws|
    requires full ==> i < |ws| && Printable(ws[i]) && t.col < g.cols
    ensures Run(g, Finished(g, t, full), ws[i..]) == Run(g, WrapIfFull(g, t), ws[i..])
  {
    if full {
      MakeRoomFirst(g, t, ws[i]);
    }
  }

  // The whole printing case, on the terminal.
  lemma PrintedRun(g: TextMode, t: Term, ws: seq<Char16>, start: nat, count: nat, scr: Screen, showing: bool,
                   full: bool)
    requires ValidMode(g) && Shape(g, t.cells) && start + count <= |ws| && AllPrintable(ws[start..start + count])
    requires t.row < g.rows && t.col < g.cols && t.col + Width(t.attr) * count <= g.cols
    requires scr == Overlay(g, t.cells, Cell(t.row, t.col), t.attr, showing) && (showing ==> count > 0)
    requires full ==> start + count < |ws| && Printable(ws[start + count]) && t.col + Width(t.attr) * count < g.cols
    ensures var run := ws[start..start + count];
      && Run(g, Finished(g, Drawn(g, t, run), full), ws[start + count..]) == Run(g, t, ws[start..])
      && Shape(g, Drawn(g, t, run).cells)
      && Drawn(g, t, run) ==
        Term(DrawRun(g, scr, t.row, t.col, run, t.attr), t.row, t.col + Width(t.attr) * count, t.attr)
  {
    DrawnRun(g, t, ws, start, count, showing);
    RunFinished(g, Drawn(g, t, ws[start..start + count]), ws, start + count, full);
  }

  // The same, with the terminal behind the characters drawn.
  lemma FittedRun(g: TextMode, t: Term, ws: seq<Char16>, start: nat, count: nat, scr: Screen, showing: bool, full: bool)
    returns (t1: Term)
    requires ValidMode(g) && Shape(g, t.cells) && start + count <= |ws| && AllPrintable(ws[start..start + count])
    requires t.row < g.rows && t.col < g.cols && t.col + Width(t.attr) * count <= g.cols
    requires scr == Overlay(g, t.cells, Cell(t.row, t.col), t.attr, showing) && (showing ==> count > 0)
    requires full ==> start + count < |ws| && Printable(ws[start + count]) && t.col + Width(t.attr) * count < g.cols
    ensures Run(g, Finished(g, t1, full), ws[start + count..]) == Run(g, t, ws[start..]) && Shape(g, t1.cells)
    ensures t1 == Term(DrawRun(g, scr, t.row, t.col, ws[start..start + count], t.attr),
                       t.row, t.col + Width(t.attr) * count, t.attr)
  {
    PrintedRun(g, t, ws, start, count, scr, showing, full);
    t1 := Drawn(g, t, ws[start..start + count]);
  }

  // What the nested call that prints a space does, wherever the cursor was showing.
  lemma PrintSpace(g: TextMode, t: Term, visible: bool)
    requires ValidMode(g) && t.col < g.cols
    ensures Output(g, t.(cells := Overlay(g, t.cells, Cell(t.row, t.col), t.attr, visible)), SPACE_STRING)
         == WrapIfFull(g, t.(cells := SpaceAt(g, t.cells, Cell(t.row, t.col), t.attr), col := t.col + 1))
  {
    var u := t.(cells := Overlay(g, t.cells, Cell(t.row, t.col), t.attr, visible));
    var v := Step(g, u, NARROW_CHAR);
    RunTwo(g, u, NARROW_CHAR, SPACE);
    assert Hue(ClearWide(t.attr)) == Hue(t.attr);
    OverlayCovered(g, t.cells, Cell(t.row, t.col), t.attr, visible, g.glyph(SPACE, ClearWide(t.attr), 0));
    assert SpaceAt(g, u.cells, Cell(t.row, t.col), t.attr) == SpaceAt(g, t.cells, Cell(t.row, t.col), t.attr);
  }

  lemma PrintCrLf(g: TextMode, t: Term)
    ensures Output(g, t, CRLF_STRING) == NewLine(g, t)
  {
    var u := Step(g, t, CHAR_CARRIAGE_RETURN);
    RunTwo(g, t, CHAR_CARRIAGE_RETURN, CHAR_LINEFEED);
  }

  // The two block transfers of a scroll: move all rows but the first up by one, fill the last row.
  function MoveUp(g: TextMode, s: Screen): Screen {
    map p | p in s :: if p.col < g.cols && p.row + 1 < g.rows && Cell(p.row + 1, p.col) in s
                      then s[Cell(p.row + 1, p.col)] else s[p]
  }

  function FillLastRow(g: TextMode, s: Screen, blank: Block): Screen {
    map p | p in s :: if p.col < g.cols && p.row + 1 == g.rows then blank else s[p]
  }

  lemma MoveThenFillScrolls(g: TextMode, s: Screen, blank: Block)
    requires Shape(g, s)
    ensures FillLastRow(g, MoveUp(g, s), blank) == Scroll(g, s, blank)
  {
    forall p | p in s ensures FillLastRow(g, MoveUp(g, s), blank)[p] == Scroll(g, s, blank)[p] {
      assert p.col < g.cols ==> (Cell(p.row + 1, p.col) in s <==> p.row + 1 < g.rows);
    }
  }

  // Nesting depth: a line end never calls back, a space calls back only for a line end.
  function Rank(s: seq<Char16>): nat {
    if s == CRLF_STRING then 0 else if s == SPACE_STRING then 1 else 2
  }

  class Console {
    const mode: TextMode
    var ready: bool          // a text mode has been set (Mode->Mode != -1)
    var row: nat
    var col: nat
    var attribute: Attribute
    var visible: bool
    var screen: Screen

    ghost predicate Valid()
      reads this
    {
      Valid'() && col <= mode.cols
    }

    ghost predicate Valid'()
      reads this
    {
      ValidMode(mode) && Shape(mode, screen) && row < mode.rows
    }

    // The text on the screen: what is left when the cursor is taken off.
    ghost function Text(): Screen
      reads this
    {
      Overlay(mode, screen, Cell(row, col), attribute, visible)
    }

    ghost function Terminal(): Term
      reads this
    {
      Term(Text(), row, col, attribute)
    }

    // The cursor shows on top of the text at the cursor cell, and nowhere else.
    lemma ScreenIsTextUnderCursor()
      ensures screen == Overlay(mode, Text(), Cell(row, col), attribute, visible)
    {
      OverlayTwice(mode, screen, Cell(row, col), attribute, attribute, visible);
    }

    // The driver is at terminal state t; the cursor is off the screen unless `pending`.
    ghost predicate Refines(t: Term, pending: bool)
      reads this
    {
      && t.row == row && t.col == col && t.attr == attribute && Shape(mode, t.cells)
      && screen == Overlay(mode, t.cells, Cell(row, col), attribute, visible && pending)
      && (pending ==> Wide(attribute) && col == 0)
    }

    constructor (mode: TextMode, screen: Screen)
      requires ValidMode(mode) && Shape(mode, screen)
      ensures Valid() && this.mode == mode && this.screen == screen && ready && !visible
      ensures row == 0 && col == 0 && attribute == 15
    {
      this.mode := mode;
      this.screen := screen;
      ready, row, col, attribute, visible := true, 0, 0, 15, false;
    }

    /** FlushCursor: read the cell back, XOR the cursor glyph into it, write it to the screen. */
    method FlushCursor()
      requires Valid()
      modifies this`screen
      ensures screen == Overlay(mode, old(screen), Cell(row, col), attribute, visible)
      ensures Valid()
    {
      if !visible {
        return;
      }
      if Cell(row, col) in screen {
        var cell := ToggledCell(screen[Cell(row, col)], Foreground(mode, attribute));
        screen := screen[Cell(row, col) := cell];
      }
    }

    // The loop over the rows of the cursor glyph, on a copy of the cell.
    method ToggledCell(cell: Block, fg: Pixel) returns (toggled: Block)
      ensures toggled == Toggle(mode, cell, fg)
    {
      var blt := new Pixel[GLYPH_HEIGHT, GLYPH_WIDTH](
        (y, x) requires 0 <= y < GLYPH_HEIGHT && 0 <= x < GLYPH_WIDTH => cell[y][x]);
      var posY := 0;
      while posY < GLYPH_HEIGHT
        invariant 0 <= posY <= GLYPH_HEIGHT
        invariant forall y, x :: 0 <= y < GLYPH_HEIGHT && 0 <= x < GLYPH_WIDTH ==>
          blt[y, x] == if y < posY && mode.cursor(y, 7 - x) then Xor(cell[y][x], fg) else cell[y][x]
      {
        XorGlyphRow(blt, posY, fg);
        posY := posY + 1;
      }
      toggled := seq(GLYPH_HEIGHT, y requires 0 <= y < GLYPH_HEIGHT reads blt =>
        seq(GLYPH_WIDTH, x requires 0 <= x < GLYPH_WIDTH reads blt => blt[y, x]));
      forall y | 0 <= y < GLYPH_HEIGHT ensures toggled[y] == ToggleRow(mode, y, cell[y], fg) {
      }
    }

    // The loop over the bits of one row: bit 0 is the rightmost pixel.
    method XorGlyphRow(blt: array2<Pixel>, posY: nat, fg: Pixel)
      requires blt.Length0 == GLYPH_HEIGHT && blt.Length1 == GLYPH_WIDTH && posY < GLYPH_HEIGHT
      modifies blt
      ensures forall y, x :: 0 <= y < GLYPH_HEIGHT && 0 <= x < GLYPH_WIDTH ==>
        blt[y, x] == if y == posY && mode.cursor(y, 7 - x) then Xor(old(blt[y, x]), fg) else old(blt[y, x])
    {
      var posX := 0;
      while posX < GLYPH_WIDTH
        invariant 0 <= posX <= GLYPH_WIDTH
        invariant forall y, x :: 0 <= y < GLYPH_HEIGHT && 0 <= x < GLYPH_WIDTH ==>
          blt[y, x] == if y == posY && x >= GLYPH_WIDTH - posX && mode.cursor(y, 7 - x)
                       then Xor(old(blt[y, x]), fg) else old(blt[y, x])
      {
        if mode.cursor(posY, posX) {
          blt[posY, GLYPH_WIDTH - posX - 1] := Xor(blt[posY, GLYPH_WIDTH - posX - 1], fg);
        }
        posX := posX + 1;
      }
    }

    /** How many characters fit on this line, and how many columns the cursor then moves. */
    method MeasureRun(ws: seq<Char16>, i: nat) returns (count: nat, index: nat)
      requires Valid() && col < mode.cols && i < |ws| && Printable(ws[i])
      ensures i + count <= |ws| && AllPrintable(ws[i..i + count])
      ensures col + Width(attribute) * count <= mode.cols
      ensures col + index <= mode.cols ==> index == Width(attribute) * count && 1 <= count
      ensures col + index > mode.cols ==>
        && Wide(attribute) && index == Width(attribute) * count + 2 && col + Width(attribute) * count == mode.cols - 1
        && i + count < |ws| && Printable(ws[i + count])
    {
      count, index := 0, 0;
      while col + index < mode.cols
        invariant i + count <= |ws| && forall k :: i <= k < i + count ==> Printable(ws[k])
        invariant index == Width(attribute) * count
        invariant col + index <= mode.cols
        invariant count == 0 ==> i + count < |ws| && Printable(ws[i + count])
      {
        if i + count == |ws| || !Printable(ws[i + count]) {
          break;
        }
        if Wide(attribute) {
          index := index + 1;
          if col + index + 1 > mode.cols {
            index := index + 1;
            break;
          }
        }
        count, index := count + 1, index + 1;
      }
    }

    /** The line-feed case: on the last row two block transfers scroll the text area. */
    method LineFeedKey()
      requires Valid()
      modifies this`screen, this`row
      ensures Term(screen, row, col, attribute) == LineFeed(mode, old(Term(screen, row, col, attribute)))
      ensures Valid()
    {
      if row == mode.rows - 1 {
        MoveThenFillScrolls(mode, screen, Blank(Background(mode, attribute)));
        screen := MoveUp(mode, screen);
        screen := FillLastRow(mode, screen, Blank(Background(mode, attribute)));
      } else {
        row := row + 1;
      }
    }

    // The nested call that prints a space with the cursor off the screen; it comes back on.
    method NestedSpace(ghost ws: seq<Char16>)
      requires ready && Valid() && col < mode.cols && Rank(ws) == 2
      modifies this
      ensures ready && visible == old(visible) && Valid() && col < mode.cols
      ensures Terminal() == WrapIfFull(mode, Term(SpaceAt(mode, old(screen), Cell(old(row), old(col)), old(attribute)),
                                                  old(row), old(col) + 1, old(attribute)))
      decreases Rank(ws), 0
    {
      PrintSpace(mode, Term(screen, row, col, attribute), visible);
      var _ := OutputString(SPACE_STRING);
    }

    // The same away from the last cell of the screen, and the cursor taken off again.
    method EraseForward(ghost ws: seq<Char16>)
      requires ready && Valid() && col < mode.cols && Rank(ws) == 2 && (col + 1 < mode.cols || row + 1 < mode.rows)
      modifies this
      ensures ready && visible == old(visible) && attribute == old(attribute) && Valid()
      ensures screen == SpaceAt(mode, old(screen), Cell(old(row), old(col)), attribute)
      ensures if old(col) + 1 < mode.cols then row == old(row) && col == old(col) + 1
        else row == old(row) + 1 && col == 0
      decreases Rank(ws), 1
    {
      NestedSpace(ws);
      FlushCursor();
    }

    // The nested call that ends the line, with the cursor on before it and off after it.
    method NestedNewLine(ghost ws: seq<Char16>)
      requires ready && Valid() && Rank(ws) >= 1
      modifies this
      ensures ready && visible == old(visible) && Valid() && col < mode.cols
      ensures Term(screen, row, col, attribute) == NewLine(mode, old(Term(screen, row, col, attribute)))
      decreases Rank(ws), 0
    {
      OverlayTwice(mode, screen, Cell(row, col), attribute, attribute, visible);
      PrintCrLf(mode, Term(screen, row, col, attribute));
      FlushCursor();
      var _ := OutputString(CRLF_STRING);
      FlushCursor();
    }

    /** The backspace case: step back, print a space through a nested call, step back again. */
    method BackspaceKey(ghost ws: seq<Char16>)
      requires ready && Valid() && col < mode.cols && Rank(ws) == 2
      modifies this
      ensures ready && visible == old(visible) && Valid() && col < mode.cols
      ensures Term(screen, row, col, attribute) == Backspace(mode, old(Term(screen, row, col, attribute)))
      decreases Rank(ws), 2
    {
      if col == 0 && row > 0 {
        row := row - 1;
        col := mode.cols - 1;
        EraseForward(ws);
        row := row - 1;
        col := mode.cols - 1;
      } else if col > 0 {
        col := col - 1;
        EraseForward(ws);
        col := col - 1;
      }
    }

    /** The cases of characters that print nothing. */
    method ControlKey(ws: seq<Char16>, i: nat, ghost t: Term)
      requires ready && Valid() && CHAR_NULL !in ws && i < |ws| && !Printable(ws[i])
      requires Refines(t, false)
      requires col < mode.cols || ws[i] == CHAR_CARRIAGE_RETURN
      modifies this
      ensures ready && visible == old(visible) && Valid() && col < mode.cols
      ensures Refines(Step(mode, t, ws[i]), false)
      decreases Rank(ws), 3
    {
      if ws[i] == CHAR_BACKSPACE {
        BackspaceKey(ws);
      } else if ws[i] == CHAR_LINEFEED {
        LineFeedKey();
      } else if ws[i] == CHAR_CARRIAGE_RETURN {
        col := 0;
      } else if ws[i] == WIDE_CHAR {
        attribute := SetWide(attribute);
      } else {
        attribute := ClearWide(attribute);
      }
    }

    /**
     * The printing case: draw what fits on the line, then go to the next line if it is full.
     * When a wide character does not fit, the nested call that fills the line with a space returns
     * with the cursor showing (`pending`); it stays until that character is drawn over it.
     */
    method PrintRun(ws: seq<Char16>, start: nat, ghost t: Term, ghost pending: bool)
      returns (i: nat, ghost t': Term, ghost pending': bool)
      requires ready && Valid() && col < mode.cols && CHAR_NULL !in ws && start < |ws| && Printable(ws[start])
      requires Rank(ws) == 2 || (Rank(ws) == 1 && !Wide(attribute))
      requires Refines(t, pending)
      modifies this
      ensures ready && visible == old(visible) && attribute == old(attribute) && Valid() && col < mode.cols
      ensures start <= i <= |ws| && (start == i ==> !pending && pending')
      ensures Run(mode, t', ws[i..]) == Run(mode, t, ws[start..])
      ensures Refines(t', pending') && (pending' ==> i < |ws| && Printable(ws[i]))
      decreases Rank(ws), 3
    {
      ghost var t1;
      i, t1 := DrawFitting(ws, start, t, pending);
      pending' := col > mode.cols;
      t' := Finished(mode, t1, pending');
      FinishLine(ws, t1);
    }

    /** The first half of the printing case: draw the characters that fit, move the cursor behind them. */
    method DrawFitting(ws: seq<Char16>, start: nat, ghost t: Term, ghost pending: bool) returns (i: nat, ghost t1: Term)
      requires Valid() && col < mode.cols && start < |ws| && Printable(ws[start])
      requires Refines(t, pending)
      modifies this`screen, this`col
      ensures Valid'() && Behind(t1) && start <= i <= |ws| && (start == i ==> !pending && col > mode.cols)
      ensures col > mode.cols ==> i < |ws| && Printable(ws[i])
      ensures Run(mode, Finished(mode, t1, col > mode.cols), ws[i..]) == Run(mode, t, ws[start..])
    {
      var count, index;
      count, index, t1 := FitRun(ws, start, t, pending);
      i := start + count;
      screen := DrawRun(mode, screen, row, col, ws[start..i], attribute);
      col := col + index;
    }

    // The run that fits, and the terminal behind it
    method FitRun(ws: seq<Char16>, start: nat, ghost t: Term, ghost pending: bool)
      returns (count: nat, index: nat, ghost t1: Term)
      requires Valid() && col < mode.cols && start < |ws| && Printable(ws[start])
      requires Refines(t, pending)
      ensures start + count <= |ws| && (count == 0 ==> !pending && col + index > mode.cols)
      ensures col + index > mode.cols ==> start + count < |ws| && Printable(ws[start + count])
      ensures Run(mode, Finished(mode, t1, col + index > mode.cols), ws[start + count..]) == Run(mode, t, ws[start..])
      ensures t1 == Term(DrawRun(mode, screen, row, col, ws[start..start + count], attribute), row, t1.col, attribute)
      ensures Shape(mode, t1.cells) && 1 <= t1.col <= mode.cols
      ensures || col + index == t1.col
              || (col + index == mode.cols + 1 && t1.col == mode.cols - 1 && Wide(attribute))
    {
      count, index := MeasureRun(ws, start);
      t1 := FittedRun(mode, t, ws, start, count, screen, visible && pending, col + index > mode.cols);
    }

    // The characters up to t1 are drawn; the cursor is behind them, or past the edge if a wide one did not fit.
    ghost predicate Behind(t1: Term)
      reads this
    {
      && t1 == Term(screen, row, t1.col, attribute) && 1 <= t1.col <= mode.cols
      && (col == t1.col || (col == mode.cols + 1 && t1.col == mode.cols - 1 && Wide(attribute)))
    }

    /** The end of the printing case: a wide character did not fit, or the line is exactly full. */
    method FinishLine(ghost ws: seq<Char16>, ghost t1: Term)
      requires ready && Valid'() && 1 <= Rank(ws) && Behind(t1)
      requires col > mode.cols ==> Rank(ws) == 2
      modifies this
      ensures ready && visible == old(visible) && Valid() && col < mode.cols
      ensures Refines(Finished(mode, t1, old(col) > mode.cols), old(col) > mode.cols)
      decreases Rank(ws), 2
    {
      if col > mode.cols {
        FillLine(ws, t1);
      }
      if col >= mode.cols {
        NestedNewLine(ws);
      }
    }

    // The cursor back from behind the edge, and a space for the wide character that did not fit
    method FillLine(ghost ws: seq<Char16>, ghost t1: Term)
      requires ready && Valid'() && Behind(t1) && col > mode.cols && Rank(ws) == 2
      modifies this
      ensures ready && visible == old(visible) && Valid() && col < mode.cols
      ensures Refines(Finished(mode, t1, true), true)
      decreases Rank(ws), 1
    {
      col := col - 2;
      NestedSpace(ws);
      ScreenIsTextUnderCursor();
    }

    // A control character, as a step of the run over the string
    method ControlStep(ws: seq<Char16>, i: nat, ghost t: Term) returns (ghost t': Term)
      requires ready && Valid() && CHAR_NULL !in ws && i < |ws| && !Printable(ws[i])
      requires Refines(t, false)
      requires col < mode.cols || (i == 0 && ws == CRLF_STRING)
      modifies this
      ensures ready && visible == old(visible) && Valid() && col < mode.cols
      ensures Run(mode, t', ws[i + 1..]) == Run(mode, t, ws[i..])
      ensures Refines(t', false)
      ensures ws == SPACE_STRING ==> !Wide(attribute)
      decreases Rank(ws), 4
    {
      RunStep(mode, t, ws, i);
      ControlKey(ws, i, t);
      t' := Step(mode, t, ws[i]);
    }

    /** One pass of the loop over the string. */
    method Advance(ws: seq<Char16>, start: nat, ghost t: Term, ghost pending: bool)
      returns (i: nat, ghost t': Term, ghost pending': bool)
      requires ready && Valid() && CHAR_NULL !in ws && start < |ws|
      requires Refines(t, pending) && (pending ==> Printable(ws[start]))
      requires col < mode.cols || (start == 0 && ws == CRLF_STRING)
      requires ws == SPACE_STRING && start >= 1 ==> !Wide(attribute)
      modifies this
      ensures ready && visible == old(visible) && Valid() && col < mode.cols
      ensures start <= i <= |ws| && (start == i ==> !pending && pending')
      ensures Run(mode, t', ws[i..]) == Run(mode, t, ws[start..])
      ensures Refines(t', pending') && (pending' ==> i < |ws| && Printable(ws[i]))
      ensures ws == SPACE_STRING ==> !Wide(attribute)
      decreases Rank(ws), 5
    {
      if Printable(ws[start]) {
        i, t', pending' := PrintRun(ws, start, t, pending);
      } else {
        t' := ControlStep(ws, start, t);
        i, pending' := start + 1, false;
      }
    }

    /** SIMPLE_TEXT_OUTPUT.OutputString */
    method OutputString(ws: seq<Char16>) returns (status: Status)
      requires Valid() && CHAR_NULL !in ws
      requires col == mode.cols ==> ws == CRLF_STRING
      modifies this
      ensures visible == old(visible) && ready == old(ready) && Valid()
      ensures !ready ==> status == Unsupported && unchanged(this)
      ensures ready ==> status == Success && Terminal() == Output(mode, old(Terminal()), ws) && col < mode.cols
      decreases Rank(ws), 6
    {
      if !ready {
        return Unsupported;
      }
      ghost var start := Terminal();
      FlushCursor();
      var originAttribute := attribute;
      var i := 0;
      ghost var t, pending := start, false;
      while i < |ws|
        invariant i <= |ws|
        invariant Refines(t, pending) && (pending ==> i < |ws| && Printable(ws[i]))
        invariant Valid() && ready && visible == old(visible)
        invariant Run(mode, t, ws[i..]) == Run(mode, start, ws)
        invariant col < mode.cols || (i == 0 && ws == CRLF_STRING)
        invariant ws == SPACE_STRING && i >= 1 ==> !Wide(attribute)
        decreases |ws| - i, if pending then 0 else 1
      {
        i, t, pending := Advance(ws, i, t, pending);
      }
      assert ws[i..] == [];
      attribute := originAttribute;
      OverlayTwice(mode, screen, Cell(row, col), attribute, attribute, visible);
      FlushCursor();
      return Success;
    }

    /** SIMPLE_TEXT_OUTPUT.SetAttribute */
    method SetAttribute(a: nat) returns (status: Status)
      requires ready && Valid() && col < mode.cols
      modifies this
      ensures ready && Valid() && visible == old(visible)
      ensures status == if a > 0x7f then Unsupported else Success
      ensures Terminal() == ApplyOp(mode, old(Terminal()), SetColors(a))
    {
      if a > 0x7f {
        return Unsupported;
      }
      if a == attribute {
        return Success;
      }
      FlushCursor();
      attribute := a;
      OverlayTwice(mode, screen, Cell(row, col), attribute, attribute, visible);
      FlushCursor();
      return Success;
    }

    /** SIMPLE_TEXT_OUTPUT.ClearScreen */
    method ClearScreen() returns (status: Status)
      requires Valid()
      modifies this
      ensures ready == old(ready) && Valid() && visible == old(visible)
      ensures !ready ==> status == Unsupported && unchanged(this)
      ensures ready ==> status == Success && Terminal() == ApplyOp(mode, old(Terminal()), Clear)
    {
      if !ready {
        return Unsupported;
      }
      ghost var text := Text();
      screen := map p | p in screen :: Blank(Background(mode, attribute));
      assert screen == map p | p in text :: Blank(Background(mode, attribute));
      row, col := 0, 0;
      OverlayTwice(mode, screen, Cell(row, col), attribute, attribute, visible);
      FlushCursor();
      return Success;
    }

    /** SIMPLE_TEXT_OUTPUT.SetCursorPosition */
    method SetCursorPosition(column: nat, newRow: nat) returns (status: Status)
      requires Valid() && (ready ==> col < mode.cols)
      modifies this
      ensures ready == old(ready) && Valid() && visible == old(visible)
      ensures !ready ==> status == Unsupported && unchanged(this)
      ensures ready ==> status == (if column < mode.cols && newRow < mode.rows then Success else Unsupported)
      ensures ready ==> Terminal() == ApplyOp(mode, old(Terminal()), MoveTo(column, newRow)) && col < mode.cols
    {
      if !ready || column >= mode.cols || newRow >= mode.rows {
        return Unsupported;
      }
      if col == column && row == newRow {
        return Success;
      }
      FlushCursor();
      row, col := newRow, column;
      OverlayTwice(mode, screen, Cell(row, col), attribute, attribute, visible);
      FlushCursor();
      return Success;
    }

    /** SIMPLE_TEXT_OUTPUT.EnableCursor */
    method EnableCursor(show: bool) returns (status: Status)
      requires Valid()
      modifies this
      ensures ready == old(ready) && Valid()
      ensures !ready ==> status == Unsupported && unchanged(this)
      ensures ready ==> status == Success && visible == show && Terminal() == old(Terminal())
    {
      if !ready {
        return Unsupported;
      }
      FlushCursor();
      visible := show;
      OverlayTwice(mode, screen, Cell(row, col), attribute, attribute, visible);
      FlushCursor();
      return Success;
    }
  }

  // ---------- whole runs ----------

  datatype Op = Print(s: seq<Char16>) | SetColors(a: nat) | MoveTo(column: nat, row: nat) | ShowCursor(on: bool) | Clear

  // What one service call does to the text, whether the cursor is visible or not.
  function ApplyOp(g: TextMode, t: Term, op: Op): Term {
    match op
    case Print(s) => Output(g, t, s)
    case SetColors(a) => if a > 0x7f then t else t.(attr := a)
    case MoveTo(c, r) => if c < g.cols && r < g.rows then t.(row := r, col := c) else t
    case ShowCursor(_) => t
    case Clear => Term(map p | p in t.cells :: Blank(Background(g, t.attr)), 0, 0, t.attr)
  }

  function ApplyAll(g: TextMode, t: Term, ops: seq<Op>): Term
    decreases |ops|
  {
    if ops == [] then t else ApplyAll(g, ApplyOp(g, t, ops[0]), ops[1..])
  }

  function LastShown(visible: bool, ops: seq<Op>): bool
    decreases |ops|
  {
    if ops == [] then visible
    else LastShown(if ops[0].ShowCursor? then ops[0].on else visible, ops[1..])
  }

  predicate CString(op: Op) { op.Print? ==> CHAR_NULL !in op.s }

  /**
   * Any run of service calls on a console in a text mode: the text is that of the terminal, and the
   * cursor shows on it at exactly the terminal's cursor cell, or nowhere when it is invisible.
   */
  method Serve(c: Console, ops: seq<Op>)
    requires c.ready && c.Valid() && c.col < c.mode.cols && forall op <- ops :: CString(op)
    modifies c
    ensures c.ready && c.Valid() && c.col < c.mode.cols
    ensures c.Terminal() == ApplyAll(c.mode, old(c.Terminal()), ops) && c.visible == LastShown(old(c.visible), ops)
    ensures var t := ApplyAll(c.mode, old(c.Terminal()), ops);
      c.screen == Overlay(c.mode, t.cells, Cell(t.row, t.col), t.attr, LastShown(old(c.visible), ops))
  {
    var i := 0;
    while i < |ops|
      invariant 0 <= i <= |ops| && c.ready && c.Valid() && c.col < c.mode.cols
      invariant ApplyAll(c.mode, c.Terminal(), ops[i..]) == ApplyAll(c.mode, old(c.Terminal()), ops)
      invariant LastShown(c.visible, ops[i..]) == LastShown(old(c.visible), ops)
    {
      assert ops[i] in ops && ops[i..][1..] == ops[i + 1..];
      ServeOne(c, ops[i]);
      i := i + 1;
    }
    assert ops[i..] == [];
    c.ScreenIsTextUnderCursor();
  }

  method ServeOne(c: Console, op: Op)
    requires c.ready && c.Valid() && c.col < c.mode.cols && CString(op)
    modifies c
    ensures c.ready && c.Valid() && c.col < c.mode.cols
    ensures c.Terminal() == ApplyOp(c.mode, old(c.Terminal()), op)
    ensures c.visible == if op.ShowCursor? then op.on else old(c.visible)
  {
    match op
    case Print(s) => var _ := c.OutputString(s);
    case SetColors(a) => var _ := c.SetAttribute(a);
    case MoveTo(column, row) => var _ := c.SetCursorPosition(column, row);
    case ShowCursor(on) => var _ := c.EnableCursor(on);
    case Clear => var _ := c.ClearScreen();
  }
}

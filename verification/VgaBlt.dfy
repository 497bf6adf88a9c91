/**
 * Block transfers on a 640x480 VGA screen (BiosVideoThunkDxe/BiosVideo.c).
 *
 * The driver reaches the pixels only through the graphics controller: a bit mask register selects pixels
 * of an address, a read loads the latches, and a write in mode 2 colours the selected pixels and puts the
 * latched bits back into the others.
 */
module VgaBlt {
  import opened BltBounds
  import opened MachineWords
  import opened VgaPlanes
  import opened Raster

  // The colour of a pixel of the screen.
  function PixelAt(m: seq<Cell>, x: nat, y: nat): (color: nat)
    requires |m| == 38400 && x < 640 && y < 480
    ensures color < 16
  {
    ColorAt(m[80 * y + x / 8], x % 8)
  }

  /** Each bit of a colour is in its plane, at the byte of the pixel, eight to a byte and 80 bytes to a line. */
  lemma PixelMeans(m: seq<Cell>, x: nat, y: nat)
    requires |m| == 38400 && x < 640 && y < 480
    ensures var c, color := m[80 * y + x / 8], PixelAt(m, x, y);
      && (color % 2 == 1 <==> c.p0[x % 8]) && (color / 2 % 2 == 1 <==> c.p1[x % 8])
      && (color / 4 % 2 == 1 <==> c.p2[x % 8]) && (color / 8 == 1 <==> c.p3[x % 8])
  {
  }

  predicate InRect(x: int, y: int, dx: nat, dy: nat, w: nat, h: nat) { dx <= x < dx + w && dy <= y < dy + h }

  // The pixels of a rectangle have the colours given by row and column, all others are as before.
  ghost predicate Shows(before: seq<Cell>, after: seq<Cell>, dx: nat, dy: nat, w: nat, h: nat, color: (nat, nat) -> nat)
  {
    && |before| == |after| == 38400
    && forall x: nat, y: nat :: x < 640 && y < 480 ==>
         PixelAt(after, x, y) == if InRect(x, y, dx, dy, w, h) then color(x - dx, y - dy) else PixelAt(before, x, y)
  }

  // Addresses of h lines of n bytes.
  predicate InBox(a: nat, byte: int, line: nat, n: int, h: nat)
  {
    line <= a / 80 < line + h && byte <= a % 80 < byte + n
  }

  // Written in a box under a mask.
  ghost predicate Boxed(before: seq<Cell>, after: seq<Cell>, byte: int, line: nat, n: int, h: nat, mask: Bits,
                        color: nat)
  {
    && |after| == |before|
    && forall a :: 0 <= a < |before| ==>
         after[a] == if InBox(a, byte, line, n, h) then Paint(before[a], mask, color) else before[a]
  }

  lemma BoxedPixel(before: seq<Cell>, after: seq<Cell>, byte: int, line: nat, n: int, h: nat, mask: Bits, color: nat,
                   x: nat, y: nat)
    requires Boxed(before, after, byte, line, n, h, mask, color) && |before| == 38400 && color < 16
    requires x < 640 && y < 480
    ensures PixelAt(after, x, y) == if line <= y < line + h && byte <= x / 8 < byte + n && mask[x % 8] then color
                                    else PixelAt(before, x, y)
  {
    var a := 80 * y + x / 8;
    assert a / 80 == y && a % 80 == x / 8;
    PaintedColor(before[a], mask, color, x % 8);
  }

  // The masks and bytes of a fill: a left column, a middle run of whole bytes, a right column.
  datatype Columns = Columns(start: int, bytes: nat, left: Bits, right: Bits)

  // Does one of the three select this pixel of a line?
  predicate Selects(c: Columns, x: nat) {
    || (x / 8 == c.start && c.left[x % 8])
    || c.start + 1 <= x / 8 < c.start + c.bytes
    || (x / 8 == c.start + c.bytes && c.right[x % 8])
  }

  // The fills that come out empty: one whole byte.
  predicate OneWholeByte(dx: nat, w: nat) { dx % 8 == 0 && w == 8 }

  // The three columns drawn one after the other, those with an empty mask or no bytes left out.
  ghost predicate Filled(c: Columns, m0: seq<Cell>, m1: seq<Cell>, m2: seq<Cell>, m3: seq<Cell>, dy: nat, h: nat,
                         color: nat)
  {
    && (if c.left == None() then m1 == m0 else Boxed(m0, m1, c.start, dy, 1, h, c.left, color))
    && (if c.bytes <= 1 then m2 == m1 else Boxed(m1, m2, c.start + 1, dy, c.bytes - 1, h, All(), color))
    && (if c.right == None() then m3 == m2 else Boxed(m2, m3, c.start + c.bytes, dy, 1, h, c.right, color))
  }

  lemma FilledPixel(c: Columns, m0: seq<Cell>, m1: seq<Cell>, m2: seq<Cell>, m3: seq<Cell>, dy: nat, h: nat, color: nat,
                    x: nat, y: nat)
    requires Filled(c, m0, m1, m2, m3, dy, h, color) && |m0| == 38400 && color < 16 && x < 640 && y < 480
    ensures |m3| == 38400
    ensures PixelAt(m3, x, y) == if dy <= y < dy + h && Selects(c, x) then color else PixelAt(m0, x, y)
  {
    if c.left != None() {
      BoxedPixel(m0, m1, c.start, dy, 1, h, c.left, color, x, y);
    }
    if c.bytes > 1 {
      BoxedPixel(m1, m2, c.start + 1, dy, c.bytes - 1, h, All(), color, x, y);
    }
    if c.right != None() {
      BoxedPixel(m2, m3, c.start + c.bytes, dy, 1, h, c.right, color, x, y);
    }
  }

  lemma FilledShows(c: Columns, m0: seq<Cell>, m1: seq<Cell>, m2: seq<Cell>, m3: seq<Cell>,
                    dx: nat, dy: nat, w: nat, h: nat, color: nat)
    requires Filled(c, m0, m1, m2, m3, dy, h, color) && |m0| == 38400 && color < 16
    requires forall x: nat :: x < 640 ==> (Selects(c, x) <==> dx <= x < dx + w)
    ensures Shows(m0, m3, dx, dy, w, h, (i, j) => color)
  {
    FilledPixel(c, m0, m1, m2, m3, dy, h, color, 0, 0);
    forall x: nat, y: nat | x < 640 && y < 480
      ensures PixelAt(m3, x, y) == if InRect(x, y, dx, dy, w, h) then color else PixelAt(m0, x, y)
    {
      FilledPixel(c, m0, m1, m2, m3, dy, h, color, x, y);
    }
  }

  // The columns of a fill, case by case: within one byte or not, starting or ending with a whole byte or not.
  function Plan(dx: nat, w: nat): Columns
    requires w > 0
  {
    var first, last, i, j := dx / 8, (dx + w - 1) / 8, dx % 8, (dx + w - 1) % 8;
    if first == last && i == 0 && j == 7 then Columns(first - 1, 1, None(), None())
    else if first == last then Columns(first, 0, And(LeftMask(i), RightMask(j)), None())
    else
      var start := if i == 0 then first - 1 else first;
      Columns(start, last - start + (if j == 7 then 1 else 0),
              if i == 0 then None() else LeftMask(i), if j == 7 then None() else RightMask(j))
  }

  /** They select the pixels of the fill and no others, unless it is one whole byte. */
  lemma PlanSelects(dx: nat, w: nat, x: nat)
    requires w > 0
    ensures if OneWholeByte(dx, w) then Plan(dx, w).left == None() == Plan(dx, w).right && Plan(dx, w).bytes == 1
            else Selects(Plan(dx, w), x) <==> dx <= x < dx + w
  {
  }

  /** The masks and byte counts computed at the start of a fill */
  method FillColumns(dx: nat, w: nat) returns (c: Columns)
    requires w > 0
    ensures c == Plan(dx, w)
  {
    var start, bytes := dx / 8, (dx + w - 1) / 8 - dx / 8;
    var leftMask, rightMask := LeftMask(dx % 8), RightMask((dx + w - 1) % 8);
    FullMasks(dx % 8, (dx + w - 1) % 8);
    if bytes == 0 {
      leftMask := And(leftMask, rightMask);
      rightMask := None();
    }
    if leftMask == All() {
      start := start - 1;
      bytes := bytes + 1;
      leftMask := None();
    }
    if rightMask == All() {
      bytes := bytes + 1;
      rightMask := None();
    }
    c := Columns(start, bytes, leftMask, rightMask);
  }

  // Row by row, the next row of a box.
  lemma BoxGrows(before: seq<Cell>, mid: seq<Cell>, after: seq<Cell>, byte: nat, line: nat, n: nat, h: nat, mask: Bits,
                 color: nat)
    requires Boxed(before, mid, byte, line, n, h, mask, color) && |after| == |before| && byte + n <= 80
    requires forall a :: 0 <= a < |before| ==>
      after[a] == if 80 * (line + h) + byte <= a < 80 * (line + h) + byte + n then Paint(mid[a], mask, color)
        else mid[a]
    ensures Boxed(before, after, byte, line, n, h + 1, mask, color)
  {
  }

  // A box is extended by the n bytes from `start` on.
  lemma NewLine(a: nat, byte: nat, line: nat, n: nat, h: nat, start: nat)
    requires start == 80 * (line + h) + byte && byte + n <= 80
    ensures InBox(a, byte, line, n, h + 1) <==> InBox(a, byte, line, n, h) || start <= a < start + n
    ensures InBox(a, byte, line, n, h) ==> !(start <= a < start + n)
  {
  }

  // Which pixels of a line are written in a transfer of eight passes: all of those of the passes before `bit`,
  // and the first `turn` of pass `bit`.
  predicate Passed(k: int, bit: nat, turn: nat) { k % 8 < bit || (k % 8 == bit && k / 8 < turn) }

  ghost predicate Written(before: seq<Cell>, after: seq<Cell>, y: nat, dx: nat, line: seq<nat>, bit: nat, turn: nat) {
    && |before| == |after| == 38400 && y < 480
    && (forall a :: 0 <= a < 38400 && a / 80 != y ==> after[a] == before[a])
    && forall x: nat :: x < 640 ==>
         PixelAt(after, x, y) == if dx <= x < dx + |line| && Passed(x - dx, bit, turn) then line[x - dx]
           else PixelAt(before, x, y)
  }

  // One write of a pass: pixel dx+k is selected at its address and no other pixel is.
  lemma WrittenNext(before: seq<Cell>, mid: seq<Cell>, y: nat, dx: nat, line: seq<nat>, bit: nat, turn: nat, a: nat)
    requires Written(before, mid, y, dx, line, bit, turn) && bit < 8 && bit + 8 * turn < |line| && dx + |line| <= 640
    requires line[bit + 8 * turn] < 16 && a == 80 * y + (dx + bit) / 8 + turn
    ensures Written(before, mid[a := Paint(mid[a], BitMask((dx + bit) % 8), line[bit + 8 * turn])],
                    y, dx, line, bit, turn + 1)
  {
    var k := bit + 8 * turn;
    var after := mid[a := Paint(mid[a], BitMask((dx + bit) % 8), line[k])];
    forall x: nat | x < 640
      ensures PixelAt(after, x, y) == if dx <= x < dx + |line| && Passed(x - dx, bit, turn + 1) then line[x - dx]
        else PixelAt(before, x, y)
    {
      PassedNext(x - dx, bit, turn);
      SelectsOne(mid, y, dx, bit, turn, line[k], x);
    }
  }

  lemma PassedNext(k: int, bit: nat, turn: nat)
    requires bit < 8
    ensures Passed(k, bit, turn + 1) <==> Passed(k, bit, turn) || k == bit + 8 * turn
  {
  }

  lemma SelectsOne(mid: seq<Cell>, y: nat, dx: nat, bit: nat, turn: nat, color: nat, x: nat)
    requires |mid| == 38400 && y < 480 && bit < 8 && dx + bit + 8 * turn < 640 && x < 640 && color < 16
    ensures var a := 80 * y + (dx + bit) / 8 + turn;
      PixelAt(mid[a := Paint(mid[a], BitMask((dx + bit) % 8), color)], x, y)
      == if x == dx + bit + 8 * turn then color else PixelAt(mid, x, y)
  {
    var a := 80 * y + (dx + bit) / 8 + turn;
    if x / 8 == (dx + bit) / 8 + turn {
      PaintedColor(mid[a], BitMask((dx + bit) % 8), color, x % 8);
    }
  }

  lemma PassDone(before: seq<Cell>, after: seq<Cell>, y: nat, dx: nat, line: seq<nat>, bit: nat, turn: nat)
    requires Written(before, after, y, dx, line, bit, turn) && bit + 8 * turn >= |line|
    ensures Written(before, after, y, dx, line, bit + 1, 0)
  {
    forall x: nat | x < 640
      ensures PixelAt(after, x, y) == if dx <= x < dx + |line| && Passed(x - dx, bit + 1, 0) then line[x - dx]
        else PixelAt(before, x, y)
    {
      if dx <= x < dx + |line| {
        assert Passed(x - dx, bit + 1, 0) == Passed(x - dx, bit, turn);
      }
    }
  }

  // Rows 0 <= i < n are drawn.
  lemma ShowsNext(before: seq<Cell>, mid: seq<Cell>, after: seq<Cell>, dx: nat, dy: nat, n: nat, line: seq<nat>,
                  color: (nat, nat) -> nat)
    requires Shows(before, mid, dx, dy, |line|, n, color)
    requires Written(mid, after, dy + n, dx, line, 8, 0)
    requires forall k: nat :: k < |line| ==> line[k] == color(k, n)
    ensures Shows(before, after, dx, dy, |line|, n + 1, color)
  {
    forall x: nat, y: nat | x < 640 && y < 480
      ensures PixelAt(after, x, y) == if InRect(x, y, dx, dy, |line|, n + 1) then color(x - dx, y - dy)
        else PixelAt(before, x, y)
    {
      assert PixelAt(mid, x, y) == if InRect(x, y, dx, dy, |line|, n) then color(x - dx, y - dy)
        else PixelAt(before, x, y);
      if y == dy + n {
        assert Passed(x - dx, 8, 0);
      } else {
        assert (80 * y + x / 8) / 80 == y;
      }
    }
  }

  // The registers of the graphics controller that the driver programs.
  datatype Controller = Controller(mode: nat, rotate: nat, mask: Bits, plane: nat)

  // Read mode 0, write mode 2, function replace
  predicate Replaces(c: Controller) { c.mode == 2 && c.rotate == 0 }

  // The colours read back from a rectangle of the screen, row by row.
  ghost function Rows(m: seq<Cell>, x: nat, y: nat, w: nat, h: nat): (rows: seq<seq<Blt>>)
    requires |m| == 38400 && x + w <= 640 && y + h <= 480
    ensures |rows| == h && forall j :: 0 <= j < h ==> |rows[j]| == w
  {
    seq(h, j requires 0 <= j < h => seq(w, k requires 0 <= k < w => Palette(PixelAt(m, x + k, y + j))))
  }

  /** Drawing a rectangle from a buffer and reading it back gives the palette's nearest to each colour of the buffer. */
  lemma ReadBack(before: seq<Cell>, after: seq<Cell>, colors: seq<Blt>, pitch: nat, sx: nat, sy: nat,
                 dx: nat, dy: nat, w: nat, h: nat, k: nat, j: nat)
    requires dx + w <= 640 && dy + h <= 480 && k < w && j < h && HasRow(|colors|, pitch, sx, sy + j, w)
    requires Shows(before, after, dx, dy, w, h, (k, j) => Converted(colors, pitch, sx, sy, k, j))
    ensures Rows(after, dx, dy, w, h)[j][k] == Palette(Convert(Row(colors, pitch, sx, sy + j, w)[k]))
  {
    var color := PixelAt(after, dx + k, dy + j);
    assert color == Converted(colors, pitch, sx, sy, k, j);
  }

  // The colour drawn for column k, row j of the rectangle at (dx, dy) when it is drawn with what is read back from it.
  function Reread(m: seq<Cell>, dx: nat, dy: nat, k: nat, j: nat): nat {
    if |m| == 38400 && dx + k < 640 && dy + j < 480 then Convert(Palette(PixelAt(m, dx + k, dy + j))) else 0
  }

  // What drawing a rectangle with its own colours read back makes of the screen.
  ghost predicate Redrawn(before: seq<Cell>, after: seq<Cell>, dx: nat, dy: nat, w: nat, h: nat) {
    && dx + w <= 640 && dy + h <= 480 && |before| == 38400
    && Shows(before, after, dx, dy, w, h, (k, j) => Reread(before, dx, dy, k, j))
  }

  // What was stored in a buffer converts to the colours of the screen read back.
  lemma StoredConverts(m: seq<Cell>, was: seq<Blt>, colors: seq<Blt>, pitch: nat, cx: nat, cy: nat,
                       x: nat, y: nat, w: nat, h: nat, k: nat, j: nat)
    requires |m| == 38400 && x + w <= 640 && y + h <= 480 && k < w && j < h
    requires Stored(was, colors, pitch, cx, cy, w, Rows(m, x, y, w, h))
    ensures Converted(colors, pitch, cx, cy, k, j) == Reread(m, x, y, k, j)
  {
    var rows := Rows(m, x, y, w, h);
    assert Row(colors, pitch, cx, cy + j, w) == rows[cy + j - cy];
    assert Row(colors, pitch, cx, cy + j, w)[k] == colors[Offset(pitch, cy + j) + cx + k];
    assert rows[j][k] == Palette(PixelAt(m, x + k, y + j));
  }

  lemma ReadAndDrawn(before: seq<Cell>, after: seq<Cell>, was: seq<Blt>, colors: seq<Blt>, pitch: nat, cx: nat, cy: nat,
                     x: nat, y: nat, w: nat, h: nat)
    requires |before| == 38400 && x + w <= 640 && y + h <= 480
    requires Stored(was, colors, pitch, cx, cy, w, Rows(before, x, y, w, h))
    requires Shows(before, after, x, y, w, h, (k, j) => Converted(colors, pitch, cx, cy, k, j))
    ensures Redrawn(before, after, x, y, w, h)
  {
    var shown := (k: nat, j: nat) => Converted(colors, pitch, cx, cy, k, j);
    var goal := (k: nat, j: nat) => Reread(before, x, y, k, j);
    forall k: nat, j: nat | k < w && j < h ensures shown(k, j) == goal(k, j) {
      StoredConverts(before, was, colors, pitch, cx, cy, x, y, w, h, k, j);
    }
    ShowsSame(before, after, x, y, w, h, shown, goal);
  }

  // Only the colours inside the rectangle matter.
  lemma ShowsSame(before: seq<Cell>, after: seq<Cell>, x: nat, y: nat, w: nat, h: nat,
                  color: (nat, nat) -> nat, other: (nat, nat) -> nat)
    requires Shows(before, after, x, y, w, h, color)
    requires forall k: nat, j: nat :: k < w && j < h ==> color(k, j) == other(k, j)
    ensures Shows(before, after, x, y, w, h, other)
  {
    forall u: nat, v: nat | u < 640 && v < 480
      ensures PixelAt(after, u, v) == if InRect(u, v, x, y, w, h) then other(u - x, v - y) else PixelAt(before, u, v)
    {
      if InRect(u, v, x, y, w, h) {
        assert color(u - x, v - y) == other(u - x, v - y);
      }
    }
  }

  ghost predicate SamePicture(before: seq<Cell>, after: seq<Cell>)
    requires |before| == |after| == 38400
  {
    forall x: nat, y: nat :: x < 640 && y < 480 ==> PixelAt(after, x, y) == PixelAt(before, x, y)
  }

  // A rectangle without the colours that do not survive
  ghost predicate Keeps(m: seq<Cell>, dx: nat, dy: nat, w: nat, h: nat)
    requires |m| == 38400
  {
    forall x: nat, y: nat :: x < 640 && y < 480 && InRect(x, y, dx, dy, w, h) ==> PixelAt(m, x, y) !in {7, 8, 9, 10, 12}
  }

  lemma RedrawnPixel(before: seq<Cell>, after: seq<Cell>, dx: nat, dy: nat, w: nat, h: nat, x: nat, y: nat)
    requires Redrawn(before, after, dx, dy, w, h) && x < 640 && y < 480
    ensures |after| == 38400
    ensures PixelAt(after, x, y) == PixelAt(before, x, y)
       <==> InRect(x, y, dx, dy, w, h) ==> PixelAt(before, x, y) !in {7, 8, 9, 10, 12}
  {
    PaletteRoundTrip(PixelAt(before, x, y));
  }

  /** The screen is the same after redrawing a rectangle if and only if the rectangle holds none of five colours. */
  lemma RedrawKeepsIff(before: seq<Cell>, after: seq<Cell>, dx: nat, dy: nat, w: nat, h: nat)
    requires Redrawn(before, after, dx, dy, w, h)
    ensures SamePicture(before, after) <==> Keeps(before, dx, dy, w, h)
  {
    forall x: nat, y: nat | x < 640 && y < 480
      ensures PixelAt(after, x, y) == PixelAt(before, x, y)
         <==> InRect(x, y, dx, dy, w, h) ==> PixelAt(before, x, y) !in {7, 8, 9, 10, 12}
    {
      RedrawnPixel(before, after, dx, dy, w, h, x, y);
    }
  }

  // An address and a mask that select pixel x of line y.
  predicate Points(address: nat, mask: Bits, x: nat, y: nat) { address == 80 * y + x / 8 && mask == BitMask(x % 8) }

  // What a buffer shows at column k, row j of the rectangle at (sx, sy) in it.
  function Converted(colors: seq<Blt>, pitch: nat, sx: nat, sy: nat, k: nat, j: nat): nat {
    if HasRow(|colors|, pitch, sx, sy + j, k + 1) then Convert(colors[Offset(pitch, sy + j) + sx + k]) else 0
  }

  datatype Transfer = Fill | ToBuffer | FromBuffer

  const SCREEN: Size := Size(640, 480)

  // The rectangle that is checked: the source when the screen is read, the destination otherwise
  function ToCheck(op: Transfer, sx: nat, sy: nat, dx: nat, dy: nat, w: nat, h: nat): Rect {
    if op == ToBuffer then Rect(sx, sy, w, h) else Rect(dx, dy, w, h)
  }

  // What is left to the caller: the buffer covers what is transferred.
  ghost predicate Addressable(op: Transfer, length: nat, pitch: nat, sx: nat, sy: nat, dx: nat, dy: nat, w: nat, h: nat)
  {
    match op
    case Fill => length >= 1
    case ToBuffer => w <= pitch && forall y :: dy <= y < dy + h ==> HasRow(length, pitch, dx, y, w)
    case FromBuffer => forall y :: sy <= y < sy + h ==> HasRow(length, pitch, sx, y, w)
  }

  class Vga {
    const memory: array<Cell>
    var controller: Controller
    var latch: Cell
    const lineBuffer: array<nat>
    const vgaFrameBuffer: array<Bits>     // four planes of 38400 bytes
    const x64: bool                       // words have 64 bits, not 32

    ghost predicate Valid() {
      memory.Length == 38400 && lineBuffer.Length >= 640 && vgaFrameBuffer.Length == 4 * 38400
    }

    ghost predicate Apart(buffer: array<Blt>) {
      && buffer as object != memory && buffer as object != lineBuffer && buffer as object != vgaFrameBuffer
      && memory as object != lineBuffer && memory as object != vgaFrameBuffer
    }

    // PciIo->Mem.Read of one byte in read mode 0: fills the latch
    method MemRead(address: nat) returns (data: Bits)
      requires Valid() && address < memory.Length
      modifies this`latch
      ensures latch == memory[address] && data == Plane(memory[address], controller.plane)
    {
      latch := memory[address];
      data := Plane(latch, controller.plane);
    }

    // PciIo->Mem.Write of one byte in write mode 2
    method MemWrite(address: nat, data: nat)
      requires Valid() && address < memory.Length && Replaces(controller)
      modifies memory
      ensures memory[..] == old(memory[..])[address := Paint(latch, controller.mask, data)]
    {
      memory[address] := Paint(latch, controller.mask, data);
    }

    // The same byte to `count` addresses
    method MemFill(address: nat, count: nat, data: nat)
      requires Valid() && address + count <= memory.Length && Replaces(controller) && controller.mask == All()
      modifies memory
      ensures forall a :: 0 <= a < memory.Length ==>
        memory[a] == if address <= a < address + count then Paint(old(memory[a]), All(), data) else old(memory[a])
    {
      var i := 0;
      while i < count
        invariant 0 <= i <= count
        invariant forall a :: 0 <= a < memory.Length ==>
          memory[a] == if address <= a < address + i then Paint(old(memory[a]), All(), data) else old(memory[a])
      {
        FullPaint(latch, memory[address + i], data);
        memory[address + i] := Paint(latch, controller.mask, data);
        i := i + 1;
      }
    }

    // A column of h bytes under a mask: read the latches, write the colour, line after line
    method PaintColumn(mask: Bits, start: nat, byte: nat, line: nat, h: nat, color: nat)
      requires Valid() && Replaces(controller)
      requires start == 80 * line + byte && byte < 80 && line + h <= 480
      modifies this`controller, this`latch, memory
      ensures Boxed(old(memory[..]), memory[..], byte, line, 1, h, mask, color) && Replaces(controller)
    {
      controller := controller.(mask := mask);
      var i, address := 0, start;
      while i < h
        invariant 0 <= i <= h && address == start + 80 * i
        invariant Replaces(controller) && controller.mask == mask
        invariant Boxed(old(memory[..]), memory[..], byte, line, 1, i, mask, color)
      {
        ghost var mid := memory[..];
        var data := MemRead(address);
        MemWrite(address, color);
        BoxGrows(old(memory[..]), mid, memory[..], byte, line, 1, i, mask, color);
        i, address := i + 1, address + 80;
      }
    }

    // A run of n whole bytes in each of h lines
    method PaintRun(start: nat, byte: nat, n: nat, line: nat, h: nat, color: nat)
      requires Valid() && Replaces(controller)
      requires start == 80 * line + byte && byte + n <= 80 && line + h <= 480
      modifies this`controller, memory
      ensures Boxed(old(memory[..]), memory[..], byte, line, n, h, All(), color) && Replaces(controller)
    {
      controller := controller.(mask := All());
      var i, address := 0, start;
      while i < h
        invariant 0 <= i <= h && address == start + 80 * i
        invariant Replaces(controller) && controller.mask == All()
        invariant Boxed(old(memory[..]), memory[..], byte, line, n, i, All(), color)
      {
        ghost var mid := memory[..];
        MemFill(address, n, color);
        BoxGrows(old(memory[..]), mid, memory[..], byte, line, n, i, All(), color);
        i, address := i + 1, address + 80;
      }
    }

    /**
     * EfiBltVideoFill: exactly the pixels of the rectangle take the colour, except that a rectangle which is
     * one whole byte wide is not drawn at all.
     */
    method VideoFill(blt: Blt, dx: nat, dy: nat, w: nat, h: nat)
      requires Valid() && 0 < w && dx + w <= 640 && dy + h <= 480
      modifies this`controller, this`latch, memory
      ensures if OneWholeByte(dx, w) then memory[..] == old(memory[..])
              else Shows(old(memory[..]), memory[..], dx, dy, w, h, (i, j) => Convert(blt))
    {
      var c := FillColumns(dx, w);
      var start := 80 * dy + c.start;
      var pixelColor := Convert(blt);
      controller := controller.(mode := 2, rotate := 0);
      ghost var m0 := memory[..];
      if c.left != None() {
        PaintColumn(c.left, start, c.start, dy, h, pixelColor);
      }
      ghost var m1 := memory[..];
      if c.bytes > 1 {
        PaintRun(start + 1, c.start + 1, c.bytes - 1, dy, h, pixelColor);
      }
      ghost var m2 := memory[..];
      if c.right != None() {
        PaintColumn(c.right, start + c.bytes, c.start + c.bytes, dy, h, pixelColor);
      }
      if !OneWholeByte(dx, w) {
        forall x: nat | x < 640 ensures Selects(c, x) <==> dx <= x < dx + w { PlanSelects(dx, w, x); }
        FilledShows(c, m0, m1, m2, memory[..], dx, dy, w, h, pixelColor);
      }
    }

    /** EfiBltBufferToVideo: each pixel of the rectangle takes the converted colour of its place in the buffer. */
    method BufferToVideo(buffer: array<Blt>, pitch: nat, sx: nat, sy: nat, dx: nat, dy: nat, w: nat, h: nat)
      requires Valid() && 0 < w && dx + w <= 640 && dy + h <= 480
      requires buffer as object != memory && buffer as object != lineBuffer && memory as object != lineBuffer
      requires forall y :: sy <= y < sy + h ==> HasRow(buffer.Length, pitch, sx, y, w)
      modifies this`controller, this`latch, memory, lineBuffer
      ensures var colors := buffer[..];
        Shows(old(memory[..]), memory[..], dx, dy, w, h, (k, j) => Converted(colors, pitch, sx, sy, k, j))
    {
      var startAddress, leftMask := 80 * dy + dx / 8, BitMask(dx % 8);
      controller := controller.(mode := 2, rotate := 0);
      ghost var m0, colors := memory[..], buffer[..];
      ghost var color := (k: nat, j: nat) => Converted(colors, pitch, sx, sy, k, j);
      var index, address := 0, startAddress;
      while index < h
        invariant 0 <= index <= h && address == startAddress + 80 * index && leftMask == BitMask(dx % 8)
        invariant Replaces(controller) && Shows(m0, memory[..], dx, dy, w, index, color)
      {
        ghost var mid := memory[..];
        assert HasRow(buffer.Length, pitch, sx, sy + index, w);
        ConvertLine(buffer, pitch, sx, sy + index, w);
        leftMask := PutLine(dx, dy + index, w, address, leftMask);
        ShowsNext(m0, mid, memory[..], dx, dy, index, lineBuffer[..w], color);
        index, address := index + 1, address + 80;
      }
    }

    // One row of the buffer, converted into the line buffer
    method ConvertLine(buffer: array<Blt>, pitch: nat, sx: nat, y: nat, w: nat)
      requires Valid() && w <= 640 && HasRow(buffer.Length, pitch, sx, y, w) && buffer as object != lineBuffer
      modifies lineBuffer
      ensures forall k: nat :: k < w ==> lineBuffer[k] == Convert(buffer[Offset(pitch, y) + sx + k])
    {
      OffsetIsProduct(pitch, y);
      var blt := y * pitch + sx;
      var index1 := 0;
      while index1 < w
        invariant 0 <= index1 <= w
        invariant forall k: nat :: k < index1 ==> lineBuffer[k] == Convert(buffer[blt + k])
      {
        lineBuffer[index1] := Convert(buffer[blt + index1]);
        index1 := index1 + 1;
      }
    }

    // Eight passes over a line: pass b writes every eighth pixel from b on, the mask moving one pixel to the right
    // and wrapping to the next address.
    method PutLine(dx: nat, y: nat, w: nat, address: nat, mask: Bits) returns (leftMask: Bits)
      requires Valid() && Replaces(controller) && dx + w <= 640 && y < 480 && memory as object != lineBuffer
      requires Points(address, mask, dx, y)
      requires forall k: nat :: k < w ==> lineBuffer[k] < 16
      modifies this`controller, this`latch, memory
      ensures Points(address + 1, leftMask, dx + 8, y) && Replaces(controller)
      ensures Written(old(memory[..]), memory[..], y, dx, lineBuffer[..w], 8, 0)
    {
      leftMask := mask;
      var addressFix, bit := address, 0;
      while bit < 8
        invariant 0 <= bit <= 8 && Replaces(controller)
        invariant Points(addressFix, leftMask, dx + bit, y)
        invariant Written(old(memory[..]), memory[..], y, dx, lineBuffer[..w], bit, 0)
      {
        controller := controller.(mask := leftMask);
        PutPass(dx, y, w, addressFix, bit, old(memory[..]));
        leftMask, addressFix := NextMask(leftMask, addressFix, dx + bit, y);
        bit := bit + 1;
      }
    }

    // The mask one pixel to the right, and its address
    method NextMask(mask: Bits, address: nat, ghost x: nat, ghost y: nat) returns (leftMask: Bits, addressFix: nat)
      requires Points(address, mask, x, y)
      ensures Points(addressFix, leftMask, x + 1, y)
    {
      leftMask, addressFix := Right(mask), address;
      ShiftsOut(x % 8);
      if leftMask == None() {
        leftMask, addressFix := BitMask(0), address + 1;
      }
    }

    // One pass
    method PutPass(dx: nat, y: nat, w: nat, addressFix: nat, bit: nat, ghost before: seq<Cell>)
      requires Valid() && Replaces(controller) && dx + w <= 640 && y < 480 && bit < 8
      requires Points(addressFix, controller.mask, dx + bit, y)
      requires memory as object != lineBuffer && forall k: nat :: k < w ==> lineBuffer[k] < 16
      requires Written(before, memory[..], y, dx, lineBuffer[..w], bit, 0)
      modifies this`latch, memory
      ensures Written(before, memory[..], y, dx, lineBuffer[..w], bit + 1, 0)
    {
      var index1, address1 := bit, addressFix;
      ghost var turn: nat := 0;
      while index1 < w
        invariant index1 == bit + 8 * turn && address1 == addressFix + turn
        invariant Written(before, memory[..], y, dx, lineBuffer[..w], bit, turn)
      {
        ghost var mid := memory[..];
        var data := MemRead(address1);
        MemWrite(address1, lineBuffer[index1]);
        WrittenNext(before, mid, y, dx, lineBuffer[..w], bit, turn, address1);
        index1, address1, turn := index1 + 8, address1 + 1, turn + 1;
      }
      PassDone(before, memory[..], y, dx, lineBuffer[..w], bit, turn);
    }

    // Plane p of an address is in the copy in memory.
    predicate HasCopy(p: nat, a: nat)
      requires Valid() && p < 4 && a < 38400
      reads memory, vgaFrameBuffer
    {
      vgaFrameBuffer[38400 * p + a] == Plane(memory[a], p)
    }

    ghost predicate Copied(byte: nat, line: nat, n: nat, h: nat)
      requires Valid()
      reads memory, vgaFrameBuffer
    {
      forall p: nat, a: nat :: p < 4 && a < 38400 && InBox(a, byte, line, n, h) ==> HasCopy(p, a)
    }

    // VgaReadBitPlanes
    method ReadBitPlanes(start: nat, byte: nat, n: nat, line: nat, h: nat)
      requires Valid() && start == 80 * line + byte && byte + n <= 80 && line + h <= 480
      requires memory != vgaFrameBuffer as object
      modifies this`controller, this`latch, vgaFrameBuffer
      ensures Copied(byte, line, n, h)
    {
      controller := controller.(mode := 0);
      var bitPlane, offset := 0, 0;
      while bitPlane < 4
        invariant 0 <= bitPlane <= 4 && offset == 38400 * bitPlane
        invariant forall p: nat, a: nat :: p < bitPlane && a < 38400 && InBox(a, byte, line, n, h) ==> HasCopy(p, a)
      {
        controller := controller.(plane := bitPlane);
        ReadPlane(bitPlane, start, offset + start, byte, n, line, h);
        bitPlane, offset := bitPlane + 1, offset + 38400;
      }
    }

    // One plane, line after line
    method ReadPlane(p: nat, start: nat, copy: nat, byte: nat, n: nat, line: nat, h: nat)
      requires Valid() && p < 4 && controller.plane == p && memory != vgaFrameBuffer as object
      requires start == 80 * line + byte && copy == 38400 * p + start && byte + n <= 80 && line + h <= 480
      modifies this`latch, vgaFrameBuffer
      ensures forall a: nat :: a < 38400 && InBox(a, byte, line, n, h) ==> HasCopy(p, a)
      ensures forall q: nat, a: nat :: q < p && a < 38400 && old(HasCopy(q, a)) ==> HasCopy(q, a)
    {
      var rows := 0;
      while rows < h
        invariant 0 <= rows <= h
        invariant forall a: nat :: a < 38400 && InBox(a, byte, line, n, rows) ==> HasCopy(p, a)
        invariant forall j :: 0 <= j < 38400 * p ==> vgaFrameBuffer[j] == old(vgaFrameBuffer[j])
      {
        ghost var before := vgaFrameBuffer[..];
        forall a: nat | a < 38400 && InBox(a, byte, line, n, rows)
          ensures before[38400 * p + a] == Plane(memory[a], p)
        {
          assert HasCopy(p, a);
        }
        ReadLine(p, start + 80 * rows, copy + 80 * rows, n);
        forall a: nat | a < 38400 && InBox(a, byte, line, n, rows + 1) ensures HasCopy(p, a) {
          NewLine(a, byte, line, n, rows, start + 80 * rows);
          if InBox(a, byte, line, n, rows) {
            assert vgaFrameBuffer[38400 * p + a] == before[38400 * p + a];
          }
        }
        rows := rows + 1;
      }
    }

    // PciIo->Mem.Read of n bytes
    method ReadLine(p: nat, source: nat, destination: nat, n: nat)
      requires Valid() && p < 4 && controller.plane == p && memory != vgaFrameBuffer as object
      requires source + n <= 38400 && destination == 38400 * p + source
      modifies this`latch, vgaFrameBuffer
      ensures forall a: nat :: source <= a < source + n ==> HasCopy(p, a)
      ensures forall j :: 0 <= j < vgaFrameBuffer.Length && !(destination <= j < destination + n) ==>
        vgaFrameBuffer[j] == old(vgaFrameBuffer[j])
    {
      var i := 0;
      while i < n
        invariant 0 <= i <= n
        invariant forall j :: destination <= j < destination + i ==>
          vgaFrameBuffer[j] == Plane(memory[source + (j - destination)], p)
        invariant forall j :: 0 <= j < vgaFrameBuffer.Length && !(destination <= j < destination + n) ==>
          vgaFrameBuffer[j] == old(vgaFrameBuffer[j])
      {
        vgaFrameBuffer[destination + i] := MemRead(source + i);
        i := i + 1;
      }
      forall a: nat | source <= a < source + n ensures HasCopy(p, a) {
        assert vgaFrameBuffer[38400 * p + a] == Plane(memory[source + (38400 * p + a - destination)], p);
      }
    }

    // VgaConvertToGraphicsOutputColor
    method ConvertToOutputColor(x: nat, y: nat, ghost a: nat) returns (blt: Blt)
      requires Valid() && x < 640 && y < 480
      requires a == 80 * y + x / 8 && forall p: nat :: p < 4 ==> HasCopy(p, a)
      ensures blt == Palette(PixelAt(memory[..], x, y))
    {
      var memoryBuffer, b := 80 * y + x / 8, x % 8;
      ghost var cell := memory[memoryBuffer];
      var bit, color := 1, 0;
      ghost var p: nat := 0;
      while bit < 0x10
        invariant p <= 4 && bit == Weight(p) && memoryBuffer == 38400 * p + 80 * y + x / 8
        invariant color == Weigh(p > 0 && cell.p0[b], p > 1 && cell.p1[b], p > 2 && cell.p2[b], p > 3 && cell.p3[b])
        decreases 4 - p
      {
        assert HasCopy(p, a);
        if vgaFrameBuffer[memoryBuffer][b] {
          color := color + bit;
        }
        bit, memoryBuffer, p := 2 * bit, memoryBuffer + 38400, p + 1;
      }
      blt := Palette(color);
    }

    /** EfiBltVideoToBltBuffer */
    method VideoToBuffer(buffer: array<Blt>, pitch: nat, sx: nat, sy: nat, dx: nat, dy: nat, w: nat, h: nat)
      requires Valid() && 0 < w <= pitch && sx + w <= 640 && sy + h <= 480
      requires memory != vgaFrameBuffer as object && buffer as object != memory && buffer as object != vgaFrameBuffer
      requires forall y :: dy <= y < dy + h ==> HasRow(buffer.Length, pitch, dx, y, w)
      modifies this`controller, this`latch, vgaFrameBuffer, buffer
      ensures Stored(old(buffer[..]), buffer[..], pitch, dx, dy, w, Rows(memory[..], sx, sy, w, h))
    {
      var sourceOffset, sourceWidth := 80 * sy + sx / 8, (sx + w - 1) / 8 - sx / 8 + 1;
      ReadBitPlanes(sourceOffset, sx / 8, sourceWidth, sy, h);
      ghost var was, m := buffer[..], memory[..];
      ghost var pixels := Rows(m, sx, sy, w, h);
      OffsetIsProduct(pitch, dy);
      var blt, rows := dy * pitch + dx, 0;
      while rows < h
        invariant 0 <= rows <= h && blt == Offset(pitch, dy + rows) + dx
        invariant Stored(was, buffer[..], pitch, dx, dy, w, pixels[..rows])
        invariant Copied(sx / 8, sy, sourceWidth, h) && memory[..] == m
      {
        assert HasRow(buffer.Length, pitch, dx, dy + rows, w);
        RowCopied(sx / 8, sy, sourceWidth, h, rows);
        StoreRow(buffer, pitch, blt, sx, sy + rows, dx, dy, w, rows, was, pixels);
        blt, rows := blt + pitch, rows + 1;
      }
      assert pixels[..h] == pixels;
    }

    lemma RowCopied(byte: nat, line: nat, n: nat, h: nat, i: nat)
      requires Valid() && Copied(byte, line, n, h) && i < h
      ensures Copied(byte, line + i, n, 1)
    {
      forall p: nat, a: nat | p < 4 && a < 38400 && InBox(a, byte, line + i, n, 1) ensures HasCopy(p, a) {
        assert InBox(a, byte, line, n, h);
      }
    }

    // One row of the rectangle, below the rows already stored
    method StoreRow(buffer: array<Blt>, ghost pitch: nat, blt: nat, sx: nat, y: nat, ghost dx: nat, ghost dy: nat,
                    w: nat,
                    ghost i: nat, ghost was: seq<Blt>, ghost pixels: seq<seq<Blt>>)
      requires Valid() && 0 < w <= pitch && sx + w <= 640 && y < 480 && HasRow(buffer.Length, pitch, dx, dy + i, w)
      requires memory != vgaFrameBuffer as object && buffer as object != memory && buffer as object != vgaFrameBuffer
      requires blt == Offset(pitch, dy + i) + dx && Copied(sx / 8, y, (sx + w - 1) / 8 - sx / 8 + 1, 1)
      requires i < |pixels| && |pixels[i]| == w && forall k: nat :: k < w ==>
        pixels[i][k] == Palette(PixelAt(memory[..], sx + k, y))
      requires Stored(was, buffer[..], pitch, dx, dy, w, pixels[..i])
      modifies buffer
      ensures Stored(was, buffer[..], pitch, dx, dy, w, pixels[..i + 1])
    {
      ghost var mid := buffer[..];
      ReadRow(buffer, blt, sx, y, w, pixels[i]);
      StoreNext(was, mid, buffer[..], pitch, dx, dy, w, pixels[..i], pixels[i]);
      assert pixels[..i] + [pixels[i]] == pixels[..i + 1];
    }

    // One row of pixels, converted into the buffer
    method ReadRow(buffer: array<Blt>, blt: nat, sx: nat, y: nat, w: nat, ghost row: seq<Blt>)
      requires Valid() && sx + w <= 640 && y < 480 && blt + w <= buffer.Length
      requires memory != vgaFrameBuffer as object && buffer as object != memory && buffer as object != vgaFrameBuffer
      requires Copied(sx / 8, y, (sx + w - 1) / 8 - sx / 8 + 1, 1)
      requires |row| == w && forall k: nat :: k < w ==> row[k] == Palette(PixelAt(memory[..], sx + k, y))
      modifies buffer
      ensures buffer[..] == Splice(old(buffer[..]), blt, row)
    {
      var columns := 0;
      while columns < w
        invariant 0 <= columns <= w
        invariant Copied(sx / 8, y, (sx + w - 1) / 8 - sx / 8 + 1, 1)
        invariant forall j :: 0 <= j < buffer.Length ==>
          buffer[j] == if blt <= j < blt + columns then row[j - blt] else old(buffer[j])
      {
        assert InBox(80 * y + (sx + columns) / 8, sx / 8, y, (sx + w - 1) / 8 - sx / 8 + 1, 1);
        buffer[blt + columns] := ConvertToOutputColor(sx + columns, y, 80 * y + (sx + columns) / 8);
        columns := columns + 1;
      }
      SpliceAt(old(buffer[..]), buffer[..], blt, row);
    }

    /**
     * A rectangle read into a buffer and drawn from it again: the picture stays if and only if the rectangle has none
     * of five colours.
     */
    method Redraw(buffer: array<Blt>, pitch: nat, cx: nat, cy: nat, x: nat, y: nat, w: nat, h: nat)
      requires Valid() && Apart(buffer) && 0 < w <= pitch && x + w <= 640 && y + h <= 480
      requires forall z :: cy <= z < cy + h ==> HasRow(buffer.Length, pitch, cx, z, w)
      modifies this`controller, this`latch, memory, lineBuffer, vgaFrameBuffer, buffer
      ensures Redrawn(old(memory[..]), memory[..], x, y, w, h)
      ensures SamePicture(old(memory[..]), memory[..]) <==> Keeps(old(memory[..]), x, y, w, h)
    {
      ghost var before, was := memory[..], buffer[..];
      VideoToBuffer(buffer, pitch, x, y, cx, cy, w, h);
      assert memory[..] == before;
      ghost var colors := buffer[..];
      BufferToVideo(buffer, pitch, cx, cy, x, y, w, h);
      ReadAndDrawn(before, memory[..], was, colors, pitch, cx, cy, x, y, w, h);
      RedrawKeepsIff(before, memory[..], x, y, w, h);
    }

    /**
     * BiosVideoGraphicsOutputVgaBlt; `delta` is in bytes, 0 meaning rows of exactly w colours.  A rectangle that passes
     * the check off the screen is not followed: nothing is said of memory and buffer then.
     */
    method Blt(op: Transfer, buffer: array<Blt>, sx: nat, sy: nat, dx: nat, dy: nat, w: nat, h: nat, delta: nat)
      returns (outcome: Outcome)
      requires Valid() && Apart(buffer)
      requires OnScreen(SCREEN, ToCheck(op, sx, sy, dx, dy, w, h)) ==>
        Addressable(op, buffer.Length, Pitch(w, delta), sx, sy, dx, dy, w, h)
      modifies this`controller, this`latch, memory, lineBuffer, vgaFrameBuffer, buffer
      ensures outcome == Checked(x64, SCREEN, ToCheck(op, sx, sy, dx, dy, w, h))
      ensures outcome == Refused || (outcome == Drawn && op == ToBuffer) ==> memory[..] == old(memory[..])
      ensures outcome == Refused || (outcome == Drawn && op != ToBuffer) ==> buffer[..] == old(buffer[..])
      ensures outcome == Drawn && op == Fill ==>
        var color := Convert(buffer[0]);
        if OneWholeByte(dx, w) then memory[..] == old(memory[..])
        else Shows(old(memory[..]), memory[..], dx, dy, w, h, (i, j) => color)
      ensures outcome == Drawn && op == FromBuffer ==>
        var colors, pitch := buffer[..], Pitch(w, delta);
        Shows(old(memory[..]), memory[..], dx, dy, w, h, (k, j) => Converted(colors, pitch, sx, sy, k, j))
      ensures outcome == Drawn && op == ToBuffer ==>
        Stored(old(buffer[..]), buffer[..], Pitch(w, delta), dx, dy, w, Rows(memory[..], sx, sy, w, h))
    {
      if w == 0 || h == 0 {
        return Refused;
      }
      if op == ToBuffer {
        if UintN(x64, sy + h) > 480 || UintN(x64, sx + w) > 640 {
          return Refused;
        }
      } else {
        if UintN(x64, dy + h) > 480 || UintN(x64, dx + w) > 640 {
          return Refused;
        }
      }
      if !OnScreen(SCREEN, ToCheck(op, sx, sy, dx, dy, w, h)) {
        return Astray;
      }
      var pitch := if delta == 0 then w else delta / 4;
      match op {
        case ToBuffer => VideoToBuffer(buffer, pitch, sx, sy, dx, dy, w, h);
        case Fill => VideoFill(buffer[0], dx, dy, w, h);
        case FromBuffer => BufferToVideo(buffer, pitch, sx, sy, dx, dy, w, h);
      }
      outcome := Drawn;
    }
  }
}

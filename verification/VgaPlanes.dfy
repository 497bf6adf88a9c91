/**
 * The bits of VGA memory in its 16-colour mode (BiosVideoThunkDxe/BiosVideo.c).  One address holds eight
 * pixels: a byte in each of four bit planes, the leftmost pixel in the most significant bits.
 */
module VgaPlanes {

  import opened LittleEndian

  // A byte as its bits, the most significant first.
  type Bits = s: seq<bool> | |s| == 8 witness seq(8, _ => false)

  function Number(m: Bits): nat {
    (if m[0] then 0x80 else 0) + (if m[1] then 0x40 else 0) + (if m[2] then 0x20 else 0) + (if m[3] then 0x10 else 0) +
    (if m[4] then 0x08 else 0) + (if m[5] then 0x04 else 0) + (if m[6] then 0x02 else 0) + if m[7] then 0x01 else 0
  }

  function None(): Bits { seq(8, _ => false) }
  function All(): Bits { seq(8, _ => true) }
  function And(m: Bits, n: Bits): Bits { seq(8, b requires 0 <= b < 8 => m[b] && n[b]) }
  function Right(m: Bits): Bits { [false] + m[..7] }

  // mVgaBitMaskTable, mVgaLeftMaskTable, mVgaRightMaskTable
  function BitMask(i: nat): Bits { seq(8, b => b == i) }
  function LeftMask(i: nat): Bits { seq(8, b => b >= i) }
  function RightMask(i: nat): Bits { seq(8, b => b <= i) }

  lemma Tables()
    ensures Number(LeftMask(0)) == 0xff && Number(LeftMask(1)) == 0x7f
    ensures Number(LeftMask(2)) == 0x3f && Number(LeftMask(3)) == 0x1f
    ensures Number(LeftMask(4)) == 0x0f && Number(LeftMask(5)) == 0x07
    ensures Number(LeftMask(6)) == 0x03 && Number(LeftMask(7)) == 0x01
    ensures Number(RightMask(0)) == 0x80 && Number(RightMask(1)) == 0xc0
    ensures Number(RightMask(2)) == 0xe0 && Number(RightMask(3)) == 0xf0
    ensures Number(RightMask(4)) == 0xf8 && Number(RightMask(5)) == 0xfc
    ensures Number(RightMask(6)) == 0xfe && Number(RightMask(7)) == 0xff
    ensures Number(BitMask(0)) == 0x80 && Number(BitMask(1)) == 0x40
    ensures Number(BitMask(2)) == 0x20 && Number(BitMask(3)) == 0x10
    ensures Number(BitMask(4)) == 0x08 && Number(BitMask(5)) == 0x04
    ensures Number(BitMask(6)) == 0x02 && Number(BitMask(7)) == 0x01
    ensures Number(None()) == 0 && Number(All()) == 0xff
  {
  }

  // The masks of a fill that select everything, or nothing.
  lemma FullMasks(i: nat, j: nat)
    requires i < 8 && j < 8
    ensures (LeftMask(i) == All() <==> i == 0) && (RightMask(j) == All() <==> j == 7)
    ensures And(LeftMask(i), RightMask(j)) == All() <==> i == 0 && j == 7
    ensures LeftMask(i) != None() && RightMask(j) != None() && All() != None()
  {
    assert LeftMask(i)[0] == (i == 0) && LeftMask(i)[7] && RightMask(j)[0] && RightMask(j)[7] == (j == 7);
    assert !None()[0] && !None()[7] && All()[0];
    assert And(LeftMask(i), RightMask(j))[0] == (i == 0) && And(LeftMask(i), RightMask(j))[7] == (j == 7) && All()[7];
    if i == 0 {
      assert LeftMask(0) == All();
    }
    if j == 7 {
      assert RightMask(7) == All();
    }
  }

  // Shifting the mask one pixel to the right
  lemma ShiftsOut(i: nat)
    requires i < 8
    ensures if i == 7 then Right(BitMask(i)) == None() else Right(BitMask(i)) == BitMask(i + 1) != None()
  {
    if i < 7 {
      assert BitMask(i + 1)[i + 1] && !None()[i + 1];
    }
  }

  // The four bytes at one address.
  datatype Cell = Cell(p0: Bits, p1: Bits, p2: Bits, p3: Bits)

  function Plane(c: Cell, plane: nat): Bits { match plane case 0 => c.p0 case 1 => c.p1 case 2 => c.p2 case _ => c.p3 }

  // The colour of pixel b of a cell: one bit from each plane, as VgaConvertToGraphicsOutputColor collects them.
  function Weigh(b0: bool, b1: bool, b2: bool, b3: bool): (color: nat)
    ensures color < 16
  {
    (if b0 then 1 else 0) + (if b1 then 2 else 0) + (if b2 then 4 else 0) + if b3 then 8 else 0
  }

  // 1, 2, 4, 8, 16
  function Weight(k: nat): nat
  {
    if k == 0 then 1 else if k == 1 then 2 else if k == 2 then 4 else if k == 3 then 8 else 16
  }

  // Does a colour have this bit?
  predicate On(color: nat, weight: nat)
    requires weight > 0
  {
    color / weight % 2 == 1
  }

  lemma WeighBits(color: nat)
    requires color < 16
    ensures Weigh(On(color, 1), On(color, 2), On(color, 4), On(color, 8)) == color
  {
  }

  function ColorAt(c: Cell, b: nat): (color: nat)
    requires b < 8
    ensures color < 16
  {
    Weigh(c.p0[b], c.p1[b], c.p2[b], c.p3[b])
  }

  // Write mode 2 with the replace function: where the bit mask is set, plane k takes bit k of the colour; elsewhere
  // it takes what the latch holds.
  function PaintPlane(latch: Bits, mask: Bits, on: bool): Bits {
    seq(8, b requires 0 <= b < 8 => if mask[b] then on else latch[b])
  }

  function Paint(latch: Cell, mask: Bits, color: nat): Cell {
    Cell(PaintPlane(latch.p0, mask, On(color, 1)), PaintPlane(latch.p1, mask, On(color, 2)),
         PaintPlane(latch.p2, mask, On(color, 4)), PaintPlane(latch.p3, mask, On(color, 8)))
  }

  /** A write in mode 2 sets exactly the pixels selected by the mask to the low four bits of the byte written. */
  lemma PaintedColor(latch: Cell, mask: Bits, color: nat, b: nat)
    requires b < 8 && color < 16
    ensures ColorAt(Paint(latch, mask, color), b) == if mask[b] then color else ColorAt(latch, b)
  {
    WeighBits(color);
  }

  // With every pixel selected the latch does not matter.
  lemma FullPaint(latch: Cell, other: Cell, color: nat)
    ensures Paint(latch, All(), color) == Paint(other, All(), color)
  {
    FullPlane(latch.p0, other.p0, On(color, 1));
    FullPlane(latch.p1, other.p1, On(color, 2));
    FullPlane(latch.p2, other.p2, On(color, 4));
    FullPlane(latch.p3, other.p3, On(color, 8));
  }

  lemma FullPlane(latch: Bits, other: Bits, on: bool)
    ensures PaintPlane(latch, All(), on) == PaintPlane(other, All(), on)
  {
  }

  // A colour of the caller's buffer.
  datatype Blt = Blt(blue: Byte, green: Byte, red: Byte)

  // VgaConvertColor: the top bit of each channel, and a bit for a total over 0x180
  function Convert(c: Blt): (color: nat)
    ensures color < 16
  {
    Weigh(c.blue >= 0x80, c.green >= 0x80, c.red >= 0x80, c.red + c.green + c.blue > 0x180)
  }

  // mVgaColorToGraphicsOutputColor
  function Palette(color: nat): Blt
    requires color < 16
  {
    match color
    case 0 => Blt(0x00, 0x00, 0x00)
    case 1 => Blt(0x98, 0x00, 0x00)
    case 2 => Blt(0x00, 0x98, 0x00)
    case 3 => Blt(0x98, 0x98, 0x00)
    case 4 => Blt(0x00, 0x00, 0x98)
    case 5 => Blt(0x98, 0x00, 0x98)
    case 6 => Blt(0x00, 0x98, 0x98)
    case 7 => Blt(0x98, 0x98, 0x98)
    case 8 => Blt(0x10, 0x10, 0x10)
    case 9 => Blt(0xff, 0x10, 0x10)
    case 10 => Blt(0x10, 0xff, 0x10)
    case 11 => Blt(0xff, 0xff, 0x10)
    case 12 => Blt(0x10, 0x10, 0xff)
    case 13 => Blt(0xf0, 0x10, 0xff)
    case 14 => Blt(0x10, 0xff, 0xff)
    case _ => Blt(0xff, 0xff, 0xff)
  }

  /** The palette, in blue, green and red */
  lemma PaletteTable()
    ensures Palette(0) == Blt(0, 0, 0) && Palette(1) == Blt(0x98, 0, 0)
    ensures Palette(2) == Blt(0, 0x98, 0) && Palette(3) == Blt(0x98, 0x98, 0)
    ensures Palette(4) == Blt(0, 0, 0x98) && Palette(5) == Blt(0x98, 0, 0x98)
    ensures Palette(6) == Blt(0, 0x98, 0x98) && Palette(7) == Blt(0x98, 0x98, 0x98)
    ensures Palette(8) == Blt(0x10, 0x10, 0x10) && Palette(9) == Blt(0xff, 0x10, 0x10)
    ensures Palette(10) == Blt(0x10, 0xff, 0x10) && Palette(11) == Blt(0xff, 0xff, 0x10)
    ensures Palette(12) == Blt(0x10, 0x10, 0xff) && Palette(13) == Blt(0xf0, 0x10, 0xff)
    ensures Palette(14) == Blt(0x10, 0xff, 0xff) && Palette(15) == Blt(0xff, 0xff, 0xff)
  {
  }

  /** Each plane gets the top bit of a channel, and the fourth one whether the channels add up to more than 384. */
  lemma ConvertMeans(c: Blt)
    ensures var color := Convert(c);
      && color < 16
      && (color % 2 == 1 <==> c.blue >= 128) && (color / 2 % 2 == 1 <==> c.green >= 128)
      && (color / 4 % 2 == 1 <==> c.red >= 128) && (color / 8 == 1 <==> c.blue + c.green + c.red > 384)
  {
  }

  // What reading a colour and writing it back makes of it.
  function Settled(color: nat): nat
    requires color < 16
  {
    if color == 7 then 15 else if color == 12 then 4 else if 8 <= color <= 10 then color - 8 else color
  }

  lemma ConvertPalette(color: nat)
    requires color < 16
    ensures Convert(Palette(color)) == Settled(color)
  {
    if color < 5 {
    } else if color < 10 {
    } else if color < 13 {
    }
  }

  /**
   * Reading a pixel and writing it back keeps its colour except for light gray, dark gray and bright blue,
   * green and red; a second round changes nothing more.
   */
  lemma PaletteRoundTrip(color: nat)
    requires color < 16
    ensures Convert(Palette(color)) == color <==> color !in {7, 8, 9, 10, 12}
    ensures Convert(Palette(Convert(Palette(color)))) == Convert(Palette(color))
  {
    ConvertPalette(color);
    ConvertPalette(Settled(color));
  }
}

/**
 * How a VBE mode shuffles the colour channels of a pixel (BiosVideoThunkDxe/BiosVideo.c).  A channel
 * occupies `width` bits of the pixel from bit `position` on: its mask is 2^width - 1, so masking is taking
 * the remainder, shifting is multiplying and dividing, and OR-ing disjoint channels is adding.
 */
module VbePixel {
  import opened Arithmetic
  import opened LittleEndian
  import VbeBlt

  datatype Channel = Channel(position: nat, width: nat)

  function End(c: Channel): nat { c.position + c.width }

  function Put(c: Channel, v: nat): nat { v % Pow2(c.width) * Pow2(c.position) }
  function Get(c: Channel, pixel: nat): nat { pixel / Pow2(c.position) % Pow2(c.width) }

  predicate Apart(a: Channel, b: Channel) { End(a) <= b.position || End(b) <= a.position }

  datatype Format = Format(red: Channel, green: Channel, blue: Channel)
  datatype Rgb = Rgb(red: nat, green: nat, blue: nat)

  predicate Disjoint(f: Format) { Apart(f.red, f.green) && Apart(f.green, f.blue) && Apart(f.red, f.blue) }

  function Pack(f: Format, c: Rgb): nat { Put(f.red, c.red) + Put(f.green, c.green) + Put(f.blue, c.blue) }
  function Unpack(f: Format, pixel: nat): Rgb { Rgb(Get(f.red, pixel), Get(f.green, pixel), Get(f.blue, pixel)) }

  lemma DivideOut(q: int, p: nat, r: nat)
    requires r < p
    ensures (q * p + r) / p == q && (q * p + r) % p == r
  {
    QuotientIs(q * p + r, p, q, r);
  }

  lemma Mul3(a: int, b: int, c: int)
    ensures a * (b * c) == (a * b) * c == (a * c) * b
  {
  }

  // The number whose bits from `from` on are k and whose bits below are zero.
  function Raise(k: nat, from: nat): nat { k * Pow2(from) }

  lemma RaiseTwice(k: nat, a: nat, b: nat)
    requires a <= b
    ensures Raise(k, b) == Raise(Raise(k, b - a), a)
  {
    Pow2Add(a, b - a);
    Mul3(k, Pow2(a), Pow2(b - a));
  }

  lemma RaiseSum(k: nat, l: nat, from: nat)
    ensures Raise(k + l, from) == Raise(k, from) + Raise(l, from)
  {
  }

  // A field is read whatever is below it and above it.
  lemma GetBetween(c: Channel, below: nat, v: nat, above: nat)
    requires below < Pow2(c.position)
    ensures Get(c, below + Put(c, v) + Raise(above, End(c))) == v % Pow2(c.width)
  {
    GetPixel(c, below + Put(c, v) + Raise(above, End(c)), below, v, above);
  }

  lemma GetPixel(c: Channel, pixel: nat, below: nat, v: nat, above: nat)
    requires below < Pow2(c.position) && pixel == below + Put(c, v) + Raise(above, End(c))
    ensures Get(c, pixel) == v % Pow2(c.width)
  {
    PixelParts(c, pixel, below, v, above);
    GetParts(c, pixel, below, v % Pow2(c.width), above);
  }

  lemma PixelParts(c: Channel, pixel: nat, below: nat, v: nat, above: nat)
    requires pixel == below + Put(c, v) + Raise(above, End(c))
    ensures pixel == below + v % Pow2(c.width) * Pow2(c.position) + above * (Pow2(c.position) * Pow2(c.width))
  {
    Pow2Add(c.position, c.width);
  }

  lemma GetParts(c: Channel, pixel: nat, below: nat, x: nat, above: nat)
    requires below < Pow2(c.position) && x < Pow2(c.width)
    requires pixel == below + x * Pow2(c.position) + above * (Pow2(c.position) * Pow2(c.width))
    ensures Get(c, pixel) == x
  {
    Between(Pow2(c.position), Pow2(c.width), x, below, above);
  }

  lemma Between(p: nat, w: nat, x: nat, below: nat, above: nat)
    requires below < p && x < w
    ensures (below + x * p + above * (p * w)) / p % w == x
  {
    Mul3(above, p, w);
    assert (above * w + x) * p == above * w * p + x * p;
    DivideOut(above * w + x, p, below);
    DivideOut(above, w, x);
  }

  lemma PutBelow(c: Channel, v: nat, limit: nat)
    requires End(c) <= limit
    ensures Put(c, v) + Pow2(c.position) <= Pow2(limit)
  {
    var p, w, x, more := Pow2(c.position), Pow2(c.width), v % Pow2(c.width), Pow2(limit - End(c));
    assert Pow2(End(c)) == p * w by { Pow2Add(c.position, c.width); }
    assert Pow2(limit) == Pow2(End(c)) * more by { Pow2Add(End(c), limit - End(c)); }
    Below(p, w, x, more);
  }

  lemma Below(p: nat, w: nat, x: nat, more: nat)
    requires x < w && more > 0
    ensures x * p + p <= p * w * more
  {
    assert (x + 1) * p <= w * p;
    assert p * w * 1 <= p * w * more;
  }

  // A field from bit `from` on is a multiple of 2^from.
  lemma PutAbove(c: Channel, v: nat, from: nat) returns (k: nat)
    requires from <= c.position
    ensures Put(c, v) == Raise(k, from)
  {
    k := Raise(v % Pow2(c.width), c.position - from);
    RaiseTwice(v % Pow2(c.width), from, c.position);
  }

  // Two other fields, each on its side of c, and anything above c do not disturb c.
  lemma GetAmong(c: Channel, a: Channel, b: Channel, v: nat, va: nat, vb: nat, rest: nat)
    requires Apart(c, a) && Apart(c, b) && Apart(a, b)
    ensures Get(c, Put(c, v) + Put(a, va) + Put(b, vb) + Raise(rest, End(c))) == v % Pow2(c.width)
  {
    if End(a) <= c.position && End(b) <= c.position {
      TwoBelow(c, a, b, v, va, vb, rest);
    } else if End(a) <= c.position {
      OneBelow(c, a, b, v, va, vb, rest);
    } else if End(b) <= c.position {
      OneBelow(c, b, a, v, vb, va, rest);
    } else {
      NoneBelow(c, a, b, v, va, vb, rest);
    }
  }

  lemma TwoBelow(c: Channel, a: Channel, b: Channel, v: nat, va: nat, vb: nat, rest: nat)
    requires Apart(a, b) && End(a) <= c.position && End(b) <= c.position
    ensures Get(c, Put(c, v) + Put(a, va) + Put(b, vb) + Raise(rest, End(c))) == v % Pow2(c.width)
  {
    if End(a) <= b.position {
      PutBelow(a, va, b.position);
      PutBelow(b, vb, c.position);
    } else {
      PutBelow(b, vb, a.position);
      PutBelow(a, va, c.position);
    }
    GetBetween(c, Put(a, va) + Put(b, vb), v, rest);
  }

  lemma OneBelow(c: Channel, a: Channel, b: Channel, v: nat, va: nat, vb: nat, rest: nat)
    requires End(a) <= c.position && End(c) <= b.position
    ensures Get(c, Put(c, v) + Put(a, va) + Put(b, vb) + Raise(rest, End(c))) == v % Pow2(c.width)
  {
    PutBelow(a, va, c.position);
    var k := PutAbove(b, vb, End(c));
    RaiseSum(k, rest, End(c));
    GetBetween(c, Put(a, va), v, k + rest);
  }

  lemma NoneBelow(c: Channel, a: Channel, b: Channel, v: nat, va: nat, vb: nat, rest: nat)
    requires End(c) <= a.position && End(c) <= b.position
    ensures Get(c, Put(c, v) + Put(a, va) + Put(b, vb) + Raise(rest, End(c))) == v % Pow2(c.width)
  {
    var k := PutAbove(a, va, End(c));
    var l := PutAbove(b, vb, End(c));
    RaiseSum(k, l, End(c));
    RaiseSum(k + l, rest, End(c));
    GetBetween(c, 0, v, k + l + rest);
  }

  /**
   * A colour read back from a pixel of `size` bits is the colour written, cut to the widths of the
   * channels, in whatever order they lie; the driver's 32-bit read may pick up bits of the next pixel.
   */
  lemma UnpackPack(f: Format, c: Rgb, size: nat, next: nat)
    requires Disjoint(f) && End(f.red) <= size && End(f.green) <= size && End(f.blue) <= size
    ensures Unpack(f, Pack(f, c) + Raise(next, size))
         == Rgb(c.red % Pow2(f.red.width), c.green % Pow2(f.green.width), c.blue % Pow2(f.blue.width))
  {
    RaiseTwice(next, End(f.red), size);
    GetAmong(f.red, f.green, f.blue, c.red, c.green, c.blue, Raise(next, size - End(f.red)));
    RaiseTwice(next, End(f.green), size);
    GetAmong(f.green, f.red, f.blue, c.green, c.red, c.blue, Raise(next, size - End(f.green)));
    RaiseTwice(next, End(f.blue), size);
    GetAmong(f.blue, f.red, f.green, c.blue, c.red, c.green, Raise(next, size - End(f.blue)));
  }

  // Three fields side by side fit below bit `size`.
  lemma PackBelow(f: Format, c: Rgb, size: nat)
    requires Disjoint(f) && End(f.red) <= size && End(f.green) <= size && End(f.blue) <= size
    ensures Pack(f, c) < Pow2(size)
  {
    if End(f.red) <= f.green.position && End(f.green) <= f.blue.position {
      Ascending(f.red, f.green, f.blue, c.red, c.green, c.blue, size);
    } else if End(f.red) <= f.blue.position && End(f.blue) <= f.green.position {
      Ascending(f.red, f.blue, f.green, c.red, c.blue, c.green, size);
    } else if End(f.green) <= f.red.position && End(f.red) <= f.blue.position {
      Ascending(f.green, f.red, f.blue, c.green, c.red, c.blue, size);
    } else if End(f.green) <= f.blue.position && End(f.blue) <= f.red.position {
      Ascending(f.green, f.blue, f.red, c.green, c.blue, c.red, size);
    } else if End(f.blue) <= f.red.position && End(f.red) <= f.green.position {
      Ascending(f.blue, f.red, f.green, c.blue, c.red, c.green, size);
    } else {
      Ascending(f.blue, f.green, f.red, c.blue, c.green, c.red, size);
    }
  }

  lemma Ascending(a: Channel, b: Channel, c: Channel, va: nat, vb: nat, vc: nat, size: nat)
    requires End(a) <= b.position && End(b) <= c.position && End(c) <= size
    ensures Put(a, va) + Put(b, vb) + Put(c, vc) < Pow2(size)
  {
    PutBelow(a, va, b.position);
    PutBelow(b, vb, c.position);
    PutBelow(c, vc, size);
  }

  lemma {:induction false} ModulusIsPow2(n: nat)
    ensures Modulus(n) == Pow2(8 * n)
  {
    if n > 0 {
      ModulusIsPow2(n - 1);
      Pow2Add(8 * (n - 1), 8);
      Pow2Of8();
    }
  }

  // ---------- the shuffling of a mode ----------

  function Shuffle(f: Format, size: nat, c: VbeBlt.Color): seq<Byte>
  {
    Bytes(Pack(f, Rgb(c.red, c.green, c.blue)), size)
  }

  function Unshuffle(f: Format, b: seq<Byte>): VbeBlt.Color {
    var c := Unpack(f, Le(b));
    VbeBlt.Color(c.red % 0x100, c.green % 0x100, c.blue % 0x100)
  }

  ghost predicate FitsPixel(f: Format, size: nat) {
    && Disjoint(f) && f.red.width <= 8 && f.green.width <= 8 && f.blue.width <= 8
    && End(f.red) <= 8 * size && End(f.green) <= 8 * size && End(f.blue) <= 8 * size
  }

  lemma FitsByte(width: nat, x: nat)
    requires width <= 8 && x < Pow2(width)
    ensures x % 0x100 == x
  {
    assert Pow2(8 - width) * Pow2(width) == 256 by {
      Pow2Add(8 - width, width);
      Pow2Of8();
    }
    TimesMonotonic(1, Pow2(8 - width), Pow2(width));
  }

  lemma CutToByte(v: nat, width: nat)
    requires width <= 8
    ensures v % Pow2(width) % 0x100 == v % Pow2(width)
  {
    FitsByte(width, v % Pow2(width));
  }

  /** The bytes of a pixel hold a colour cut to the low bits that the channels have room for. */
  lemma ShuffledBack(f: Format, size: nat, c: VbeBlt.Color)
    requires FitsPixel(f, size)
    ensures var d := Unshuffle(f, Shuffle(f, size, c));
      && d.red == c.red % Pow2(f.red.width) && d.green == c.green % Pow2(f.green.width)
      && d.blue == c.blue % Pow2(f.blue.width)
  {
    var rgb := Rgb(c.red, c.green, c.blue);
    PackBelow(f, rgb, 8 * size);
    ModulusIsPow2(size);
    LeOfBytes(Pack(f, rgb), size);
    UnpackPack(f, rgb, 8 * size, 0);
    CutToByte(c.red, f.red.width);
    CutToByte(c.green, f.green.width);
    CutToByte(c.blue, f.blue.width);
  }

  // The bits of a pixel from a position on
  function BitsAt(pixel: nat, position: nat, width: nat): nat { pixel / Pow2(position) % Pow2(width) }

  /** Each channel of a pixel holds its colour, wherever it lies. */
  lemma ChannelsHold(f: Format, size: nat, c: VbeBlt.Color)
    requires FitsPixel(f, size)
    ensures var pixel := Le(Shuffle(f, size, c));
      && BitsAt(pixel, f.red.position, f.red.width) == c.red % Pow2(f.red.width)
      && BitsAt(pixel, f.green.position, f.green.width) == c.green % Pow2(f.green.width)
      && BitsAt(pixel, f.blue.position, f.blue.width) == c.blue % Pow2(f.blue.width)
  {
    var rgb := Rgb(c.red, c.green, c.blue);
    PackBelow(f, rgb, 8 * size);
    ModulusIsPow2(size);
    LeOfBytes(Pack(f, rgb), size);
    GetAmong(f.red, f.green, f.blue, c.red, c.green, c.blue, 0);
    GetAmong(f.green, f.red, f.blue, c.green, c.red, c.blue, 0);
    GetAmong(f.blue, f.red, f.green, c.blue, c.red, c.green, 0);
  }

  lemma GetIsBits(c: Channel, pixel: nat)
    requires c.width <= 8
    ensures Get(c, pixel) % 0x100 == BitsAt(pixel, c.position, c.width)
  {
    GetIs(c, pixel);
    FitsByte(c.width, Get(c, pixel));
  }

  lemma GetIs(c: Channel, pixel: nat)
    ensures Get(c, pixel) == BitsAt(pixel, c.position, c.width) < Pow2(c.width)
  {
  }

  /** And each is read from there. */
  lemma ChannelsRead(f: Format, b: seq<Byte>)
    requires f.red.width <= 8 && f.green.width <= 8 && f.blue.width <= 8
    ensures var c, pixel := Unshuffle(f, b), Le(b);
      && c.red == BitsAt(pixel, f.red.position, f.red.width)
      && c.green == BitsAt(pixel, f.green.position, f.green.width)
      && c.blue == BitsAt(pixel, f.blue.position, f.blue.width)
  {
    GetIsBits(f.red, Le(b));
    GetIsBits(f.green, Le(b));
    GetIsBits(f.blue, Le(b));
  }

  function ModeOf(f: Format, horizontal: nat, vertical: nat, stride: nat, size: nat): VbeBlt.Mode {
    VbeBlt.Mode(horizontal, vertical, stride, size, c => Shuffle(f, size, c), b => Unshuffle(f, b))
  }

  /** In a mode with channels of eight bits every colour that is drawn can be read back unchanged. */
  lemma EightBitsReadBack(f: Format, horizontal: nat, vertical: nat, stride: nat, size: nat)
    requires FitsPixel(f, size) && 1 <= size <= 4 && f.red.width == f.green.width == f.blue.width == 8
    requires ModeOf(f, horizontal, vertical, stride, size).Bytes(horizontal) <= stride
    ensures var m := ModeOf(f, horizontal, vertical, stride, size);
      VbeBlt.ValidMode(m) && forall c :: m.unpack(m.pack(c)) == c
  {
    var m := ModeOf(f, horizontal, vertical, stride, size);
    forall c ensures m.unpack(m.pack(c)) == c {
      EightBits(f, size, c);
    }
  }

  lemma EightBits(f: Format, size: nat, c: VbeBlt.Color)
    requires FitsPixel(f, size) && f.red.width == f.green.width == f.blue.width == 8
    ensures Unshuffle(f, Shuffle(f, size, c)) == c
  {
    ShuffledBack(f, size, c);
    Pow2Of8();
    SameColor(c, Unshuffle(f, Shuffle(f, size, c)));
  }

  lemma Pow2Of8()
    ensures Pow2(8) == 256
  {
    assert Pow2(4) == 16;
  }

  lemma SameColor(c: VbeBlt.Color, d: VbeBlt.Color)
    requires d.red == c.red % 256 && d.green == c.green % 256 && d.blue == c.blue % 256
    ensures d == c
  {
  }
}

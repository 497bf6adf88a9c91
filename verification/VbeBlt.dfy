/**
 * Block transfers on a linear VBE frame buffer (BiosVideoThunkDxe/BiosVideo.c).
 *
 * Reads come from a shadow copy in ordinary memory, writes go to the shadow copy and then to the
 * physical frame buffer.  Both are flat byte arrays here, as in the driver; the contracts speak of
 * their scan lines.
 */
module VbeBlt {
  import opened BltBounds
  import opened LittleEndian
  import opened MachineWords
  import opened Raster

  datatype Color = Color(red: Byte, green: Byte, blue: Byte)

  /**
   * A video mode: visible size in pixels, bytes per scan line and per pixel, and how a colour is
   * shuffled into the bytes of a pixel and back (see module VbePixel).
   */
  datatype Mode = Mode(horizontal: nat, vertical: nat, stride: nat, size: nat,
                       pack: Color -> seq<Byte>, unpack: seq<Byte> -> Color) {
    // n * size
    function Bytes(n: nat): nat { Offset(size, n) }
  }

  ghost predicate ValidMode(m: Mode) {
    && 1 <= m.size <= 4 && m.Bytes(m.horizontal) <= m.stride
    && forall c :: |m.pack(c)| == m.size
  }

  lemma {:induction false} BytesAdd(m: Mode, a: nat, b: nat)
    ensures m.Bytes(a + b) == m.Bytes(a) + m.Bytes(b)
    decreases b
  {
    if b > 0 {
      BytesAdd(m, a, b - 1);
    }
  }

  // Pixel i of a row of w pixels from pixel x on
  lemma PixelBytes(m: Mode, x: nat, i: nat, w: nat)
    requires i < w
    ensures m.Bytes(x + i) == m.Bytes(x) + m.Bytes(i)
    ensures m.Bytes(1) == m.size && m.Bytes(i + 1) == m.Bytes(i) + m.size && m.Bytes(i + 1) <= m.Bytes(w)
  {
    BytesAdd(m, x, i);
    BytesAdd(m, i, 1);
    BytesAdd(m, i + 1, w - i - 1);
  }

  lemma BytesFit(m: Mode, x: nat, n: nat)
    requires x + n <= m.horizontal
    ensures m.Bytes(x) + m.Bytes(n) <= m.Bytes(m.horizontal)
  {
    BytesAdd(m, x, n);
    BytesAdd(m, x + n, m.horizontal - x - n);
  }

  // The bytes of a row of pixels.
  function PackRow(m: Mode, cs: seq<Color>): seq<Byte> {
    if cs == [] then [] else PackRow(m, cs[..|cs| - 1]) + m.pack(cs[|cs| - 1])
  }

  lemma {:induction false} PackRowLength(m: Mode, cs: seq<Color>)
    requires ValidMode(m)
    ensures |PackRow(m, cs)| == m.Bytes(|cs|)
  {
    if cs != [] {
      PackRowLength(m, cs[..|cs| - 1]);
    }
  }

  /** Pixel i of a row of colours is the i-th colour. */
  lemma {:induction false} PackAt(m: Mode, cs: seq<Color>, i: nat)
    requires ValidMode(m) && i < |cs|
    ensures |PackRow(m, cs)| == m.Bytes(|cs|) && m.Bytes(i) + m.size == m.Bytes(i + 1) <= m.Bytes(|cs|)
    ensures PackRow(m, cs)[m.Bytes(i)..m.Bytes(i + 1)] == m.pack(cs[i])
    decreases |cs|
  {
    var rest := cs[..|cs| - 1];
    PackRowLength(m, cs);
    PackRowLength(m, rest);
    PixelBytes(m, 0, i, |cs|);
    if i < |rest| {
      PackAt(m, rest, i);
      assert PackRow(m, cs)[m.Bytes(i)..m.Bytes(i + 1)] == PackRow(m, rest)[m.Bytes(i)..m.Bytes(i + 1)];
    }
  }

  // The first n pixels in a row of bytes.
  function UnpackRow(m: Mode, bytes: seq<Byte>, n: nat): (cs: seq<Color>)
    requires m.Bytes(n) <= |bytes|
    ensures |cs| == n
  {
    if n == 0 then []
    else UnpackRow(m, bytes, n - 1) + [m.unpack(bytes[m.Bytes(n - 1)..m.Bytes(n)])]
  }

  /** Pixel i of a row read is the i-th pixel of its bytes. */
  lemma {:induction false} UnpackAt(m: Mode, bytes: seq<Byte>, n: nat, i: nat)
    requires m.Bytes(n) <= |bytes| && i < n
    ensures m.Bytes(i) <= m.Bytes(i + 1) <= |bytes|
    ensures UnpackRow(m, bytes, n)[i] == m.unpack(bytes[m.Bytes(i)..m.Bytes(i + 1)])
    decreases n
  {
    if i < n - 1 {
      UnpackAt(m, bytes, n - 1, i);
    }
  }

  // The next pixel, at an offset in a buffer, of a row of w pixels from pixel sx of line y on
  lemma NextPixel(m: Mode, s: seq<Byte>, sx: nat, y: nat, w: nat, i: nat, line: seq<Byte>, bytes: seq<Byte>, at: nat)
    requires IsRaster(s, m.stride, m.vertical) && y < m.vertical && i < w
    requires line == Lines(s, m.stride, m.vertical)[y] && m.Bytes(sx) + m.Bytes(w) <= |line|
    requires bytes == line[m.Bytes(sx)..m.Bytes(sx) + m.Bytes(w)] && at == Offset(m.stride, y) + m.Bytes(sx + i)
    ensures at + m.size <= |s| && UnpackRow(m, bytes, w)[i] == m.unpack(s[at..at + m.size])
  {
    PixelBytes(m, sx, i, w);
    UnpackAt(m, bytes, w, i);
    PartOfRow(s, line, bytes, m.stride, m.vertical, y, m.Bytes(sx), m.Bytes(w), m.Bytes(i), m.size, at);
  }

  /** Reading back a row of written pixels gives each colour as the mode represents it. */
  lemma {:induction false} UnpackPackedRow(m: Mode, cs: seq<Color>, rest: seq<Byte>)
    requires ValidMode(m)
    ensures |PackRow(m, cs)| == m.Bytes(|cs|)
    ensures UnpackRow(m, PackRow(m, cs) + rest, |cs|) == seq(|cs|, i requires 0 <= i < |cs| => m.unpack(m.pack(cs[i])))
    decreases |cs|
  {
    PackRowLength(m, cs);
    if cs != [] {
      var n := |cs|;
      var first, last := cs[..n - 1], m.pack(cs[n - 1]);
      UnpackPackedRow(m, first, last + rest);
      assert PackRow(m, cs) + rest == PackRow(m, first) + (last + rest);
      assert (PackRow(m, cs) + rest)[m.Bytes(n - 1)..m.Bytes(n)] == last;
    }
  }

  // What is visible is the same in both buffers.
  ghost predicate Agree(a: seq<seq<Byte>>, b: seq<seq<Byte>>, visible: nat) {
    && |a| == |b|
    && forall y :: 0 <= y < |a| ==> visible <= |a[y]| && visible <= |b[y]| && a[y][..visible] == b[y][..visible]
  }

  // Byte x of line z is the same in both.
  predicate SameByte(a: seq<seq<Byte>>, b: seq<seq<Byte>>, x: nat, z: nat) {
    z < |a| && z < |b| && x < |a[z]| && x < |b[z]| && a[z][x] == b[z][x]
  }

  // Byte i of line z is one of those that are painted.
  predicate InPaint(i: nat, z: nat, x: nat, y: nat, data: seq<seq<Byte>>) {
    y <= z < y + |data| && x <= i < x + |data[z - y]|
  }

  lemma AgreeIff(a: seq<seq<Byte>>, b: seq<seq<Byte>>, visible: nat)
    requires |a| == |b| && forall z :: 0 <= z < |a| ==> visible <= |a[z]| && visible <= |b[z]|
    ensures Agree(a, b, visible) <==> forall z: nat, i: nat :: z < |a| && i < visible ==> SameByte(a, b, i, z)
  {
    if forall z: nat, i: nat :: z < |a| && i < visible ==> SameByte(a, b, i, z) {
      forall z: nat | z < |a| ensures a[z][..visible] == b[z][..visible] {
        forall i | 0 <= i < visible ensures a[z][i] == b[z][i] {
          assert SameByte(a, b, i, z);
        }
      }
    }
    if Agree(a, b, visible) {
      forall z: nat, i: nat | z < |a| && i < visible ensures SameByte(a, b, i, z) {
        assert a[z][i] == a[z][..visible][i] && b[z][i] == b[z][..visible][i];
      }
    }
  }

  // Of the visible bytes those agree afterwards that agreed before, and those that were painted.
  ghost predicate Mended(a: seq<seq<Byte>>, b: seq<seq<Byte>>, a': seq<seq<Byte>>, b': seq<seq<Byte>>,
                         visible: nat, x: nat, y: nat, data: seq<seq<Byte>>) {
    forall z: nat, i: nat :: z < |a| && i < visible ==>
      (SameByte(a', b', i, z) <==> SameByte(a, b, i, z) || InPaint(i, z, x, y, data))
  }

  lemma MendedByte(a: seq<seq<Byte>>, b: seq<seq<Byte>>, a': seq<seq<Byte>>, b': seq<seq<Byte>>,
                   x: nat, y: nat, data: seq<seq<Byte>>, i: nat, z: nat)
    requires Painted(a, a', x, y, data) && Painted(b, b', x, y, data)
    requires z < |a| == |b| && i < |a[z]| && i < |b[z]|
    ensures SameByte(a', b', i, z) <==> SameByte(a, b, i, z) || InPaint(i, z, x, y, data)
  {
    if y <= z < y + |data| {
      var d := data[z - y];
      assert a'[z] == Splice(a[z], x, d) && b'[z] == Splice(b[z], x, d);
    }
  }

  /**
   * Painting the same into both buffers, whatever they hold: a visible byte agrees afterwards if and only if it agreed
   * before or was painted.  So agreement is kept, and it is established by painting all that is visible.
   */
  lemma PaintBoth(a: seq<seq<Byte>>, b: seq<seq<Byte>>, a': seq<seq<Byte>>, b': seq<seq<Byte>>,
                  visible: nat, x: nat, y: nat, data: seq<seq<Byte>>)
    requires Painted(a, a', x, y, data) && Painted(b, b', x, y, data)
    requires |a| == |b| && forall z :: 0 <= z < |a| ==> visible <= |a[z]| && visible <= |b[z]|
    ensures Mended(a, b, a', b', visible, x, y, data)
    ensures Agree(a, b, visible) ==> Agree(a', b', visible)
    ensures (forall z: nat, i: nat :: z < |a| && i < visible ==> InPaint(i, z, x, y, data)) ==> Agree(a', b', visible)
  {
    forall z: nat, i: nat | z < |a| && i < visible
      ensures SameByte(a', b', i, z) <==> SameByte(a, b, i, z) || InPaint(i, z, x, y, data)
    {
      MendedByte(a, b, a', b', x, y, data, i, z);
    }
    PaintedShape(a, a', visible, x, y, data);
    PaintedShape(b, b', visible, x, y, data);
    AgreeIff(a, b, visible);
    AgreeIff(a', b', visible);
  }

  lemma PaintedShape(a: seq<seq<Byte>>, a': seq<seq<Byte>>, visible: nat, x: nat, y: nat, data: seq<seq<Byte>>)
    requires Painted(a, a', x, y, data) && forall z :: 0 <= z < |a| ==> visible <= |a[z]|
    ensures |a'| == |a| && forall z :: 0 <= z < |a'| ==> visible <= |a'[z]|
  {
    forall z | 0 <= z < |a'| ensures visible <= |a'[z]| {
      assert y <= z < y + |data| ==> a'[z] == Splice(a[z], x, data[z - y]);
    }
  }

  // A transfer in progress: data[i] is written at x in line y+i for the rows from <= i < to.
  ghost predicate Progress(before: seq<seq<Byte>>, after: seq<seq<Byte>>, x: nat, y: nat, data: seq<seq<Byte>>,
                           from: nat, to: nat)
    requires from <= to <= |data|
  {
    Painted(before, after, x, y + from, data[from..to]) && y + |data| <= |before|
  }

  // The next row, downwards or upwards
  lemma RowMoved(before: seq<seq<Byte>>, rows: seq<seq<Byte>>, after: seq<seq<Byte>>, x: nat, y: nat,
                 data: seq<seq<Byte>>, from: nat, to: nat, i: nat, down: bool)
    requires from <= to <= |data| && Progress(before, rows, x, y, data, from, to)
    requires if down then i == to < |data| else i == from - 1
    requires rows[y + i] == before[y + i] && x + |data[i]| <= |rows[y + i]|
    requires after == rows[y + i := Splice(rows[y + i], x, data[i])]
    ensures Progress(before, after, x, y, data, if down then from else i, if down then i + 1 else to)
  {
    ProgressStep(before, rows, after, x, y, data, from, to, i);
  }

  lemma Untouched(before: seq<seq<Byte>>, after: seq<seq<Byte>>, x: nat, y: nat, data: seq<seq<Byte>>,
                  from: nat, to: nat, z: nat)
    requires from <= to <= |data| && Progress(before, after, x, y, data, from, to)
    requires z < |before| && !(y + from <= z < y + to)
    ensures |after| == |before| && after[z] == before[z]
  {
  }

  lemma TailKept(before: seq<seq<Byte>>, after: seq<seq<Byte>>, x: nat, y: nat, data: seq<seq<Byte>>, to: nat)
    requires to <= |data| && Progress(before, after, x, y, data, 0, to)
    ensures |after| == |before| && forall z :: y + to <= z < |before| ==> after[z] == before[z]
  {
  }

  // A row of the source that is read after the rows above have been written, and the destination is not below it
  lemma SourceBelow(was: seq<Byte>, now: seq<Byte>, s0: seq<seq<Byte>>, s1: seq<seq<Byte>>, stride: nat, height: nat,
                    x: nat, y: nat, n: nat, dx: nat, dy: nat, data: seq<seq<Byte>>, i: nat)
    requires Offset(stride, height) == |was| == |now|
    requires s0 == Lines(was, stride, height) && s1 == Lines(now, stride, height)
    requires i <= |data| && dy + i <= height && dy + i <= y && HasRow(|was|, stride, x, y, n)
    requires Progress(s0, s1, dx, dy, data, 0, i)
    ensures Row(now, stride, x, y, n) == Row(was, stride, x, y, n)
  {
    TailKept(s0, s1, dx, dy, data, i);
    TailRow(was, now, s0, s1, stride, height, dy + i, x, y, n);
  }

  lemma ProgressStep(before: seq<seq<Byte>>, rows: seq<seq<Byte>>, after: seq<seq<Byte>>, x: nat, y: nat,
                     data: seq<seq<Byte>>, from: nat, to: nat, i: nat)
    requires from <= to <= |data| && Progress(before, rows, x, y, data, from, to)
    requires (i == to < |data|) || i == from - 1
    requires x + |data[i]| <= |before[y + i]| && after == rows[y + i := Splice(before[y + i], x, data[i])]
    ensures if i == to then Progress(before, after, x, y, data, from, to + 1)
      else Progress(before, after, x, y, data, i, to)
  {
    var d, d' := data[from..to], if i == to then data[from..to + 1] else data[i..to];
    var from' := if i == to then from else i;
    forall z | y + from' <= z < y + from' + |d'|
      ensures x + |d'[z - (y + from')]| <= |before[z]| && after[z] == Splice(before[z], x, d'[z - (y + from')])
    {
      if z != y + i {
        assert after[z] == rows[z] == Splice(before[z], x, d[z - (y + from)]);
      }
    }
  }

  /**
   * Writing a rectangle of colours and reading the same rectangle gives every colour as the mode
   * represents it: row i of what is read is unpack(pack(c)) for the colours c of row i.
   */
  lemma ReadBackWritten(m: Mode, before: seq<seq<Byte>>, after: seq<seq<Byte>>, x: nat, y: nat,
                        data: seq<seq<Byte>>, rows: seq<seq<Color>>, w: nat, i: nat)
    requires ValidMode(m) && Painted(before, after, m.Bytes(x), y, data) && i < |data| == |rows|
    requires |rows[i]| == w && data[i] == PackRow(m, rows[i])
    ensures m.Bytes(x) + m.Bytes(w) <= |after[y + i]|
    ensures UnpackRow(m, after[y + i][m.Bytes(x)..m.Bytes(x) + m.Bytes(w)], w)
         == seq(w, k requires 0 <= k < w => m.unpack(m.pack(rows[i][k])))
  {
    PackRowLength(m, rows[i]);
    UnpackPackedRow(m, rows[i], []);
    assert after[y + i] == Splice(before[y + i], m.Bytes(x), data[y + i - y]);
    assert after[y + i][m.Bytes(x)..m.Bytes(x) + m.Bytes(w)] == data[i] + [];
  }

  // data[i] is row y+i of the caller's buffer, as bytes.
  ghost predicate IsPacked(m: Mode, data: seq<seq<Byte>>, colors: seq<Color>, pitch: nat, x: nat, y: nat, w: nat) {
    forall z :: y <= z < y + |data| ==>
      HasRow(|colors|, pitch, x, z, w) && data[z - y] == PackRow(m, Row(colors, pitch, x, z, w))
  }

  lemma PackRows(m: Mode, colors: seq<Color>, pitch: nat, x: nat, y: nat, w: nat, h: nat)
    returns (data: seq<seq<Byte>>)
    requires forall z :: y <= z < y + h ==> HasRow(|colors|, pitch, x, z, w)
    ensures |data| == h && IsPacked(m, data, colors, pitch, x, y, w)
  {
    data := [];
    while |data| < h
      invariant |data| <= h && IsPacked(m, data, colors, pitch, x, y, w)
      decreases h - |data|
    {
      assert HasRow(|colors|, pitch, x, y + |data|, w);
      data := data + [PackRow(m, Row(colors, pitch, x, y + |data|, w))];
    }
  }

  datatype Op = Fill | ToBuffer | FromBuffer | Move

  // The rectangle the driver checks: the source when reading the screen, the destination otherwise
  function ToCheck(op: Op, sx: nat, sy: nat, dx: nat, dy: nat, w: nat, h: nat): Rect {
    if op == ToBuffer then Rect(sx, sy, w, h) else Rect(dx, dy, w, h)
  }

  // Row i of what is taken from the source of a move
  ghost predicate Held(m: Mode, was: seq<Byte>, sx: nat, sy: nat, w: nat, data: seq<seq<Byte>>) {
    && (forall y :: sy <= y < sy + |data| ==> HasRow(|was|, m.stride, m.Bytes(sx), y, m.Bytes(w)))
    && forall i :: 0 <= i < |data| ==> data[i] == Row(was, m.stride, m.Bytes(sx), sy + i, m.Bytes(w))
  }

  lemma RowsOf(m: Mode, was: seq<Byte>, sx: nat, sy: nat, w: nat, h: nat) returns (data: seq<seq<Byte>>)
    requires forall y :: sy <= y < sy + h ==> HasRow(|was|, m.stride, m.Bytes(sx), y, m.Bytes(w))
    ensures |data| == h && Held(m, was, sx, sy, w, data) && forall i :: 0 <= i < h ==> |data[i]| == m.Bytes(w)
  {
    data := [];
    while |data| < h
      invariant |data| <= h && Held(m, was, sx, sy, w, data)
      invariant forall i :: 0 <= i < |data| ==> |data[i]| == m.Bytes(w)
      decreases h - |data|
    {
      assert HasRow(|was|, m.stride, m.Bytes(sx), sy + |data|, m.Bytes(w));
      data := data + [Row(was, m.stride, m.Bytes(sx), sy + |data|, m.Bytes(w))];
    }
  }

  // A move downwards in memory, or one whose source rows lie in scan lines
  predicate MovesRight(m: Mode, sx: nat, sy: nat, dy: nat, w: nat) {
    dy <= sy || m.Bytes(sx) + m.Bytes(w) <= m.stride
  }

  // What it leaves to the caller: the buffer covers what is transferred, and a move reads inside the shadow buffer, on
  // the screen or off it.
  ghost predicate Addressable(m: Mode, op: Op, length: nat, pitch: nat, sx: nat, sy: nat, dx: nat, dy: nat, w: nat,
                              h: nat)
  {
    match op
    case Fill => length >= 1
    case ToBuffer => w <= pitch && forall y :: dy <= y < dy + h ==> HasRow(length, pitch, dx, y, w)
    case FromBuffer => forall y :: sy <= y < sy + h ==> HasRow(length, pitch, sx, y, w)
    case Move => forall y :: sy <= y < sy + h ==>
      HasRow(Offset(m.stride, m.vertical), m.stride, m.Bytes(sx), y, m.Bytes(w))
  }

  class Screen {
    const mode: Mode
    const shadow: array<Byte>
    const frame: array<Byte>
    const shadowBase: nat      // the address of the shadow buffer
    const x64: bool            // words have 64 bits, not 32

    ghost predicate Valid() {
      && ValidMode(mode) && shadow != frame && mode.horizontal < TWO32 && mode.vertical < TWO32
      && shadow.Length == frame.Length == Offset(mode.stride, mode.vertical)
    }

    ghost function ShadowLines(): seq<seq<Byte>>
      requires Valid()
      reads shadow
    {
      Lines(shadow[..], mode.stride, mode.vertical)
    }

    ghost function FrameLines(): seq<seq<Byte>>
      requires Valid()
      reads frame
    {
      Lines(frame[..], mode.stride, mode.vertical)
    }

    // The physical frame buffer shows what the shadow buffer holds.
    ghost predicate Coherent()
      requires Valid()
      reads shadow, frame
    {
      Agree(ShadowLines(), FrameLines(), mode.Bytes(mode.horizontal))
    }

    // PciIo->Mem.Write: `count` units of `unit` bytes
    method MemWrite(unit: nat, address: nat, count: nat, source: nat)
      requires Valid() && address + unit * count <= frame.Length && source + unit * count <= shadow.Length
      modifies frame
      ensures forall i :: 0 <= i < frame.Length ==>
        frame[i] == if address <= i < address + unit * count then shadow[source + (i - address)] else old(frame[i])
    {
      forall i | 0 <= i < unit * count {
        frame[address + i] := shadow[source + i];
      }
    }

    /** CopyVideoBuffer: bytes up to a 4-byte boundary of the source, then dwords, then the remaining bytes */
    method CopyVideoBuffer(vbeBuffer: nat, x: nat, y: nat, totalBytes: nat)
      requires Valid() && vbeBuffer + totalBytes <= shadow.Length
      requires Offset(mode.stride, y) + mode.Bytes(x) + totalBytes <= frame.Length
      modifies frame
      ensures frame[..] ==
        Splice(old(frame[..]), Offset(mode.stride, y) + mode.Bytes(x), shadow[vbeBuffer..vbeBuffer + totalBytes])
    {
      var address := Address(x, y);
      Transfer(address, vbeBuffer, totalBytes);
      SpliceAt(old(frame[..]), frame[..], address, shadow[vbeBuffer..vbeBuffer + totalBytes]);
    }

    // The transfer itself, from an offset in the shadow buffer to an offset in the frame buffer.
    method Transfer(address: nat, source: nat, total: nat)
      requires Valid() && source + total <= shadow.Length && address + total <= frame.Length
      modifies frame
      ensures forall i :: 0 <= i < frame.Length ==>
        frame[i] == if address <= i < address + total then shadow[source + (i - address)] else old(frame[i])
    {
      if total < 4 {
        MemWrite(1, address, total, source);
        return;
      }
      var unaligned := (4 - (shadowBase + source) % 4) % 4;
      var blocks, remaining := (total - unaligned) / 4, (total - unaligned) % 4;
      MemWriteIfAny(1, address, unaligned, source);
      MemWriteIfAny(4, address + unaligned, blocks, source + unaligned);
      assert forall i :: 0 <= i < frame.Length ==>
        frame[i] == if address <= i < address + unaligned + 4 * blocks then shadow[source + (i - address)]
          else old(frame[i]);
      MemWriteIfAny(1, address + unaligned + 4 * blocks, remaining, source + unaligned + 4 * blocks);
    }

    method MemWriteIfAny(unit: nat, address: nat, count: nat, source: nat)
      requires Valid() && address + unit * count <= frame.Length && source + unit * count <= shadow.Length
      modifies frame
      ensures forall i :: 0 <= i < frame.Length ==>
        frame[i] == if address <= i < address + unit * count then shadow[source + (i - address)] else old(frame[i])
    {
      if count != 0 {
        MemWrite(unit, address, count, source);
      }
    }

    // gBS->CopyMem into the shadow buffer
    method CopyMem(at: nat, data: seq<Byte>)
      requires at + |data| <= shadow.Length
      modifies shadow
      ensures shadow[..] == Splice(old(shadow[..]), at, data)
    {
      forall i | 0 <= i < |data| {
        shadow[at + i] := data[i];
      }
    }

    // The offset of pixel x of line y
    ghost function At(x: nat, y: nat): nat { Offset(mode.stride, y) + mode.Bytes(x) }

    method Address(x: nat, y: nat) returns (at: nat)
      ensures at == At(x, y)
    {
      OffsetIsProduct(mode.stride, y);
      OffsetIsProduct(mode.size, x);
      at := y * mode.stride + x * mode.size;
    }

    // TotalBytes
    method ByteCount(n: nat) returns (total: nat)
      ensures total == mode.Bytes(n)
    {
      OffsetIsProduct(mode.size, n);
      total := n * mode.size;
    }

    // The offset of column x of row y of the caller's buffer
    method BufferOffset(pitch: nat, x: nat, y: nat) returns (at: nat)
      ensures at == Offset(pitch, y) + x
    {
      OffsetIsProduct(pitch, y);
      at := y * pitch + x;
    }

    // A row of n pixels at x in line y is inside the buffers.
    lemma InLine(x: nat, y: nat, n: nat)
      requires Valid() && x + n <= mode.horizontal && y < mode.vertical
      ensures mode.Bytes(x) + mode.Bytes(n) <= mode.Bytes(mode.horizontal) <= mode.stride
      ensures At(x, y) + mode.Bytes(n) <= shadow.Length
    {
      OffsetGrows(mode.stride, y, mode.vertical);
      BytesFit(mode, x, n);
    }

    // Write bytes into the shadow buffer at pixel x of line y.
    method PutBytes(x: nat, y: nat, n: nat, data: seq<Byte>)
      requires Valid() && x + n <= mode.horizontal && y < mode.vertical && |data| == mode.Bytes(n)
      modifies shadow
      ensures mode.Bytes(x) + |data| <= |old(ShadowLines())[y]|
      ensures ShadowLines() == old(ShadowLines())[y := Splice(old(ShadowLines())[y], mode.Bytes(x), data)]
      ensures At(x, y) + |data| <= shadow.Length && shadow[At(x, y)..At(x, y) + |data|] == data
    {
      InLine(x, y, n);
      WriteInLine(shadow[..], mode.stride, mode.vertical, y, mode.Bytes(x), data);
      var at := Address(x, y);
      CopyMem(at, data);
    }

    // Copy n pixels from an offset in the shadow buffer to pixel x of line y of the screen.
    method ShowBytes(source: nat, x: nat, y: nat, n: nat, ghost data: seq<Byte>)
      requires Valid() && x + n <= mode.horizontal && y < mode.vertical
      requires |data| == mode.Bytes(n) && source + |data| <= shadow.Length && data == shadow[source..source + |data|]
      modifies frame
      ensures mode.Bytes(x) + |data| <= |old(FrameLines())[y]|
      ensures FrameLines() == old(FrameLines())[y := Splice(old(FrameLines())[y], mode.Bytes(x), data)]
    {
      InLine(x, y, n);
      ghost var was := frame[..];
      WriteInLine(was, mode.stride, mode.vertical, y, mode.Bytes(x), data);
      var totalBytes := ByteCount(n);
      assert shadow[source..source + totalBytes] == data;
      CopyVideoBuffer(source, x, y, totalBytes);
      assert frame[..] == Splice(was, At(x, y), data);
    }

    // Shuffle a row of colours into pixel x and after of line y of the shadow buffer.
    method PutColors(x: nat, y: nat, cs: seq<Color>)
      requires Valid() && x + |cs| <= mode.horizontal && y < mode.vertical
      modifies shadow
      ensures |PackRow(mode, cs)| == mode.Bytes(|cs|) && mode.Bytes(x) + mode.Bytes(|cs|) <= |old(ShadowLines())[y]|
      ensures ShadowLines() == old(ShadowLines())[y := Splice(old(ShadowLines())[y], mode.Bytes(x), PackRow(mode, cs))]
    {
      ghost var was := ShadowLines();
      LinesShaped(shadow[..], mode.stride, mode.vertical);
      PackRowLength(mode, cs);
      InLine(x, y, |cs|);
      assert Splice(was[y], mode.Bytes(x), []) == was[y];
      assert was[y := was[y]] == was;
      var i := 0;
      while i < |cs|
        invariant 0 <= i <= |cs| && HasColors(x, y, cs[..i], was)
      {
        PutColor(x + i, y, cs[i], x, cs[..i], was);
        assert cs[..i + 1] == cs[..i] + [cs[i]];
        i := i + 1;
      }
      assert cs[..i] == cs;
    }

    // The shadow buffer is as before but for the given colours at pixel x and after of line y.
    ghost predicate HasColors(x: nat, y: nat, cs: seq<Color>, was: seq<seq<Byte>>)
      requires Valid()
      reads shadow
    {
      && y < |was| && |PackRow(mode, cs)| == mode.Bytes(|cs|) && mode.Bytes(x) + mode.Bytes(|cs|) <= |was[y]|
      && ShadowLines() == was[y := Splice(was[y], mode.Bytes(x), PackRow(mode, cs))]
    }

    // The next colour of a row
    method PutColor(at: nat, y: nat, c: Color, ghost x: nat, ghost done: seq<Color>, ghost was: seq<seq<Byte>>)
      requires Valid() && at == x + |done| && at + 1 <= mode.horizontal && y < mode.vertical
      requires HasColors(x, y, done, was)
      requires |was[y]| == mode.stride
      modifies shadow
      ensures HasColors(x, y, done + [c], was)
    {
      ghost var next := done + [c];
      PackRowLength(mode, next);
      InLine(x, y, |next|);
      PixelBytes(mode, x, |done|, |next|);
      assert next[..|done|] == done;
      SpliceMore(was[y], mode.Bytes(x), PackRow(mode, done), mode.pack(c));
      PutBytes(at, y, 1, mode.pack(c));
    }

    // A rectangle inside the visible lines
    predicate Inside(x: nat, y: nat, w: nat, h: nat) { x + w <= mode.horizontal && y + h <= mode.vertical }

    /**
     * EfiBltVideoToVideo: the destination takes the rows `data`.  The driver does not check the source, which has to be
     * in the shadow buffer here.  The rows are what the source held before the move, on the screen or off it, unless
     * they are moved up in memory and do not lie in scan lines.
     */
    method VideoToVideo(sx: nat, sy: nat, dx: nat, dy: nat, w: nat, h: nat) returns (ghost data: seq<seq<Byte>>)
      requires Valid() && Inside(dx, dy, w, h)
      requires forall y :: sy <= y < sy + h ==> HasRow(shadow.Length, mode.stride, mode.Bytes(sx), y, mode.Bytes(w))
      modifies shadow, frame
      ensures |data| == h && forall i :: 0 <= i < h ==> |data[i]| == mode.Bytes(w)
      ensures MovesRight(mode, sx, sy, dy, w) ==> Held(mode, old(shadow[..]), sx, sy, w, data)
      ensures Inside(sx, sy, w, h) ==> IsCut(old(ShadowLines()), mode.Bytes(sx), sy, mode.Bytes(w), data)
      ensures Painted(old(ShadowLines()), ShadowLines(), mode.Bytes(dx), dy, data)
      ensures Painted(old(FrameLines()), FrameLines(), mode.Bytes(dx), dy, data)
    {
      ghost var was := shadow[..];
      data := MoveRows(sx, sy, dx, dy, w, h);
      HeldIsCut(was, sx, sy, w, data);
    }

    // The loop of a move
    method MoveRows(sx: nat, sy: nat, dx: nat, dy: nat, w: nat, h: nat) returns (ghost data: seq<seq<Byte>>)
      requires Valid() && Inside(dx, dy, w, h)
      requires forall y :: sy <= y < sy + h ==> HasRow(shadow.Length, mode.stride, mode.Bytes(sx), y, mode.Bytes(w))
      modifies shadow, frame
      ensures |data| == h && forall i :: 0 <= i < h ==> |data[i]| == mode.Bytes(w)
      ensures MovesRight(mode, sx, sy, dy, w) ==> Held(mode, old(shadow[..]), sx, sy, w, data)
      ensures Progress(old(ShadowLines()), ShadowLines(), mode.Bytes(dx), dy, data, 0, h)
      ensures Progress(old(FrameLines()), FrameLines(), mode.Bytes(dx), dy, data, 0, h)
    {
      ghost var was, f0 := shadow[..], FrameLines();
      data := CutOut(sx, sy, w, h);
      ghost var from, to := if dy <= sy then 0 else h, if dy <= sy then 0 else h;
      var index := 0;
      while index < h
        invariant 0 <= index <= h == |data| && from <= to <= h
        invariant if dy <= sy then from == 0 && to == index else from == h - index && to == h
        invariant forall i :: 0 <= i < h ==> |data[i]| == mode.Bytes(w)
        invariant MovesRight(mode, sx, sy, dy, w) ==> Held(mode, was, sx, sy, w, data)
        invariant Progress(Lines(was, mode.stride, mode.vertical), ShadowLines(), mode.Bytes(dx), dy, data, from, to)
        invariant Progress(f0, FrameLines(), mode.Bytes(dx), dy, data, from, to)
      {
        data, from, to := MoveNext(sx, sy, dx, dy, w, h, index, was, f0, data, from, to);
        index := index + 1;
      }
    }

    lemma HeldIsCut(was: seq<Byte>, sx: nat, sy: nat, w: nat, data: seq<seq<Byte>>)
      requires Valid() && |was| == shadow.Length
      ensures Inside(sx, sy, w, |data|) ==> mode.Bytes(sx) + mode.Bytes(w) <= mode.stride
      ensures Inside(sx, sy, w, |data|) && Held(mode, was, sx, sy, w, data) ==>
        IsCut(Lines(was, mode.stride, mode.vertical), mode.Bytes(sx), sy, mode.Bytes(w), data)
    {
      if Inside(sx, sy, w, |data|) {
        BytesAdd(mode, sx, w);
        BytesAdd(mode, sx + w, mode.horizontal - sx - w);
        if Held(mode, was, sx, sy, w, data) {
          RowsAreCut(was, Lines(was, mode.stride, mode.vertical), mode.stride, mode.vertical, mode.Bytes(sx), sy,
                     mode.Bytes(w), data);
        }
      }
    }

    // One round of a move: downwards from the first row or upwards from the last
    method MoveNext(sx: nat, sy: nat, dx: nat, dy: nat, w: nat, h: nat, index: nat, ghost was: seq<Byte>,
                    ghost f0: seq<seq<Byte>>, ghost data: seq<seq<Byte>>, ghost from: nat, ghost to: nat)
      returns (ghost data': seq<seq<Byte>>, ghost from': nat, ghost to': nat)
      requires Valid() && Inside(dx, dy, w, h) && |was| == shadow.Length && index < h == |data| && from <= to <= h
      requires forall y :: sy <= y < sy + h ==> HasRow(shadow.Length, mode.stride, mode.Bytes(sx), y, mode.Bytes(w))
      requires if dy <= sy then from == 0 && to == index else from == h - index && to == h
      requires forall j :: 0 <= j < h ==> |data[j]| == mode.Bytes(w)
      requires MovesRight(mode, sx, sy, dy, w) ==> Held(mode, was, sx, sy, w, data)
      requires Progress(Lines(was, mode.stride, mode.vertical), ShadowLines(), mode.Bytes(dx), dy, data, from, to)
      requires Progress(f0, FrameLines(), mode.Bytes(dx), dy, data, from, to)
      modifies shadow, frame
      ensures |data'| == h && from' <= to' <= h && forall j :: 0 <= j < h ==> |data'[j]| == mode.Bytes(w)
      ensures MovesRight(mode, sx, sy, dy, w) ==> data' == data
      ensures if dy <= sy then from' == 0 && to' == index + 1 else from' == h - index - 1 && to' == h
      ensures Progress(Lines(was, mode.stride, mode.vertical), ShadowLines(), mode.Bytes(dx), dy, data', from', to')
      ensures Progress(f0, FrameLines(), mode.Bytes(dx), dy, data', from', to')
    {
      var i := if dy <= sy then index else h - index - 1;
      assert HasRow(shadow.Length, mode.stride, mode.Bytes(sx), sy + i, mode.Bytes(w));
      ghost var s0 := Lines(was, mode.stride, mode.vertical);
      data' := TakeRow(sx, sy, dx, dy, w, i, was, f0, data, from, to);
      MoveRow(sx, sy, dx, dy, w, i, s0, f0, data', from, to);
      from', to' := if dy <= sy then from else i, if dy <= sy then i + 1 else to;
    }

    // The bytes of a row of the source as they are now
    ghost function Bytes(x: nat, y: nat, w: nat): seq<Byte>
      requires HasRow(shadow.Length, mode.stride, mode.Bytes(x), y, mode.Bytes(w))
      reads shadow
    {
      Row(shadow[..], mode.stride, mode.Bytes(x), y, mode.Bytes(w))
    }

    // Row i as it is read: still what it was before the move.
    lemma TakeRow(sx: nat, sy: nat, dx: nat, dy: nat, w: nat, i: nat, was: seq<Byte>, f0: seq<seq<Byte>>,
                  data: seq<seq<Byte>>, from: nat, to: nat) returns (taken: seq<seq<Byte>>)
      requires Valid() && |was| == shadow.Length && from <= to <= |data| && i < |data| && dy + |data| <= mode.vertical
      requires if dy <= sy then i == to && from == 0 else i == from - 1 && to == |data|
      requires HasRow(shadow.Length, mode.stride, mode.Bytes(sx), sy + i, mode.Bytes(w))
      requires MovesRight(mode, sx, sy, dy, w) ==> Held(mode, was, sx, sy, w, data)
      requires Progress(Lines(was, mode.stride, mode.vertical), ShadowLines(), mode.Bytes(dx), dy, data, from, to)
      requires Progress(f0, FrameLines(), mode.Bytes(dx), dy, data, from, to)
      ensures taken == data[i := Bytes(sx, sy + i, w)]
      ensures MovesRight(mode, sx, sy, dy, w) ==> taken == data
      ensures Progress(Lines(was, mode.stride, mode.vertical), ShadowLines(), mode.Bytes(dx), dy, taken, from, to)
      ensures Progress(f0, FrameLines(), mode.Bytes(dx), dy, taken, from, to)
    {
      taken := data[i := Bytes(sx, sy + i, w)];
      assert taken[from..to] == data[from..to];
      if MovesRight(mode, sx, sy, dy, w) {
        SourceKept(sx, sy, dx, dy, w, i, was, data, from, to);
      }
    }

    lemma SourceKept(sx: nat, sy: nat, dx: nat, dy: nat, w: nat, i: nat, was: seq<Byte>, data: seq<seq<Byte>>,
                     from: nat, to: nat)
      requires Valid() && |was| == shadow.Length && from <= to <= |data| && i < |data| && dy + |data| <= mode.vertical
      requires if dy <= sy then i == to && from == 0 else i == from - 1 && to == |data|
      requires HasRow(shadow.Length, mode.stride, mode.Bytes(sx), sy + i, mode.Bytes(w))
      requires MovesRight(mode, sx, sy, dy, w)
      requires Progress(Lines(was, mode.stride, mode.vertical), ShadowLines(), mode.Bytes(dx), dy, data, from, to)
      ensures Bytes(sx, sy + i, w) == Row(was, mode.stride, mode.Bytes(sx), sy + i, mode.Bytes(w))
    {
      var s0, s1 := Lines(was, mode.stride, mode.vertical), ShadowLines();
      if dy <= sy {
        SourceBelow(was, shadow[..], s0, s1, mode.stride, mode.vertical, mode.Bytes(sx), sy + i, mode.Bytes(w),
                    mode.Bytes(dx), dy, data, i);
      } else {
        Untouched(s0, s1, mode.Bytes(dx), dy, data, from, to, sy + i);
        OwnRow(was, shadow[..], s0[sy + i], mode.stride, mode.vertical, mode.Bytes(sx), sy + i, mode.Bytes(w));
      }
    }

    // Move row i, next to the rows from <= j < to that are done.
    method MoveRow(sx: nat, sy: nat, dx: nat, dy: nat, w: nat, i: nat, ghost s0: seq<seq<Byte>>,
                   ghost f0: seq<seq<Byte>>,
                   ghost data: seq<seq<Byte>>, ghost from: nat, ghost to: nat)
      requires Valid() && Inside(dx, dy, w, |data|) && from <= to <= |data| && i < |data|
      requires if dy <= sy then i == to else i == from - 1
      requires HasRow(shadow.Length, mode.stride, mode.Bytes(sx), sy + i, mode.Bytes(w))
      requires data[i] == Bytes(sx, sy + i, w)
      requires Progress(s0, ShadowLines(), mode.Bytes(dx), dy, data, from, to)
      requires Progress(f0, FrameLines(), mode.Bytes(dx), dy, data, from, to)
      modifies shadow, frame
      ensures var from', to' := if dy <= sy then from else i, if dy <= sy then i + 1 else to;
        && Progress(s0, ShadowLines(), mode.Bytes(dx), dy, data, from', to')
        && Progress(f0, FrameLines(), mode.Bytes(dx), dy, data, from', to')
    {
      ghost var s1, f1 := ShadowLines(), FrameLines();
      Untouched(s0, s1, mode.Bytes(dx), dy, data, from, to, dy + i);
      Untouched(f0, f1, mode.Bytes(dx), dy, data, from, to, dy + i);
      MoveLine(sx, sy + i, dx, dy + i, w, data[i]);
      RowMoved(s0, s1, ShadowLines(), mode.Bytes(dx), dy, data, from, to, i, dy <= sy);
      RowMoved(f0, f1, FrameLines(), mode.Bytes(dx), dy, data, from, to, i, dy <= sy);
    }

    ghost method CutOut(sx: nat, sy: nat, w: nat, h: nat) returns (data: seq<seq<Byte>>)
      requires forall y :: sy <= y < sy + h ==> HasRow(shadow.Length, mode.stride, mode.Bytes(sx), y, mode.Bytes(w))
      ensures |data| == h && Held(mode, shadow[..], sx, sy, w, data)
      ensures forall i :: 0 <= i < h ==> |data[i]| == mode.Bytes(w)
    {
      data := RowsOf(mode, shadow[..], sx, sy, w, h);
    }

    // One row of a move: inside the shadow buffer, where the source may overlap, then to the screen.
    method MoveLine(sx: nat, srcY: nat, dx: nat, dstY: nat, w: nat, ghost data: seq<Byte>)
      requires Valid() && dx + w <= mode.horizontal && dstY < mode.vertical
      requires HasRow(shadow.Length, mode.stride, mode.Bytes(sx), srcY, mode.Bytes(w)) && data == Bytes(sx, srcY, w)
      modifies shadow, frame
      ensures mode.Bytes(dx) + |data| <= |old(ShadowLines())[dstY]|
      ensures mode.Bytes(dx) + |data| <= |old(FrameLines())[dstY]|
      ensures ShadowLines() == old(ShadowLines())[dstY := Splice(old(ShadowLines())[dstY], mode.Bytes(dx), data)]
      ensures FrameLines() == old(FrameLines())[dstY := Splice(old(FrameLines())[dstY], mode.Bytes(dx), data)]
    {
      InLine(dx, dstY, w);
      var vbeBuffer := Address(dx, dstY);
      var vbeBuffer1 := Address(sx, srcY);
      var totalBytes := ByteCount(w);
      PutBytes(dx, dstY, w, shadow[vbeBuffer1..vbeBuffer1 + totalBytes]);
      ShowBytes(vbeBuffer, dx, dstY, w, data);
    }

    /** EfiBltVideoFill */
    method VideoFill(color: Color, dx: nat, dy: nat, w: nat, h: nat) returns (ghost data: seq<seq<Byte>>)
      requires Valid() && 1 <= h && dx + w <= mode.horizontal && dy + h <= mode.vertical
      modifies shadow, frame
      ensures data == seq(h, _ => PackRow(mode, seq(w, _ => color)))
      ensures Painted(old(ShadowLines()), ShadowLines(), mode.Bytes(dx), dy, data)
      ensures Painted(old(FrameLines()), FrameLines(), mode.Bytes(dx), dy, data)
    {
      var row := seq(w, _ => color);
      data := seq(h, _ => PackRow(mode, row));
      PackRowLength(mode, row);
      FillShadow(row, dx, dy, h, data);
      ShowCopies(dx, dy, w, h, data);
    }

    // The first row pixel by pixel, the others copied from it.
    method FillShadow(row: seq<Color>, dx: nat, dy: nat, h: nat, ghost data: seq<seq<Byte>>)
      requires Valid() && 1 <= h == |data| && dx + |row| <= mode.horizontal && dy + h <= mode.vertical
      requires forall i :: 0 <= i < h ==> data[i] == PackRow(mode, row)
      modifies shadow
      ensures Progress(old(ShadowLines()), ShadowLines(), mode.Bytes(dx), dy, data, 0, h)
    {
      ghost var s0 := ShadowLines();
      var w := |row|;
      PackRowLength(mode, row);
      InLine(dx, dy, w);
      var vbeBuffer := Address(dx, dy);
      var totalBytes := ByteCount(w);
      PutColors(dx, dy, row);
      ProgressStep(s0, s0, ShadowLines(), mode.Bytes(dx), dy, data, 0, 0, 0);
      var i := 1;
      while i < h
        invariant 1 <= i <= h
        invariant Progress(s0, ShadowLines(), mode.Bytes(dx), dy, data, 0, i)
      {
        ghost var s1 := ShadowLines();
        FirstRow(s0, dx, dy, w, data, i);
        assert s1[dy + i] == s0[dy + i];
        PutBytes(dx, dy + i, w, shadow[vbeBuffer..vbeBuffer + totalBytes]);
        ProgressStep(s0, s1, ShadowLines(), mode.Bytes(dx), dy, data, 0, i, i);
        i := i + 1;
      }
    }

    // Every row of the screen from the first row of the shadow buffer.
    method ShowCopies(dx: nat, dy: nat, w: nat, h: nat, ghost data: seq<seq<Byte>>)
      requires Valid() && 1 <= h == |data| && dx + w <= mode.horizontal && dy + h <= mode.vertical
      requires forall i :: 0 <= i < h ==> data[i] == data[0] && |data[i]| == mode.Bytes(w)
      requires exists s0 :: Progress(s0, ShadowLines(), mode.Bytes(dx), dy, data, 0, h)
      modifies frame
      ensures Progress(old(FrameLines()), FrameLines(), mode.Bytes(dx), dy, data, 0, h)
    {
      ghost var s0 :| Progress(s0, ShadowLines(), mode.Bytes(dx), dy, data, 0, h);
      FirstRow(s0, dx, dy, w, data, h);
      InLine(dx, dy, w);
      ghost var f0 := FrameLines();
      var vbeBuffer := Address(dx, dy);
      var i := 0;
      while i < h
        invariant 0 <= i <= h
        invariant Progress(f0, FrameLines(), mode.Bytes(dx), dy, data, 0, i)
        invariant shadow[..] == old(shadow[..])
      {
        ghost var f1 := FrameLines();
        assert f1[dy + i] == f0[dy + i];
        ShowBytes(vbeBuffer, dx, dy + i, w, data[i]);
        ProgressStep(f0, f1, FrameLines(), mode.Bytes(dx), dy, data, 0, i, i);
        i := i + 1;
      }
    }

    // The first of the rows written so far can be read at its place in the shadow buffer.
    lemma FirstRow(s0: seq<seq<Byte>>, dx: nat, dy: nat, w: nat, data: seq<seq<Byte>>, i: nat)
      requires Valid() && dx + w <= mode.horizontal && dy < mode.vertical && 1 <= i <= |data|
      requires |data[0]| == mode.Bytes(w) && Progress(s0, ShadowLines(), mode.Bytes(dx), dy, data, 0, i)
      ensures At(dx, dy) + mode.Bytes(w) <= shadow.Length && shadow[At(dx, dy)..At(dx, dy) + mode.Bytes(w)] == data[0]
    {
      InLine(dx, dy, w);
      ReadInLine(shadow[..], mode.stride, mode.vertical, dy, mode.Bytes(dx), mode.Bytes(w));
      assert ShadowLines()[dy] == Splice(s0[dy], mode.Bytes(dx), data[0]);
    }

    /** EfiBltBufferToVideo; the rows of the caller's buffer are `pitch` colours apart */
    method BufferToVideo(buffer: array<Color>, pitch: nat, sx: nat, sy: nat, dx: nat, dy: nat, w: nat, h: nat)
      returns (ghost data: seq<seq<Byte>>)
      requires Valid() && dx + w <= mode.horizontal && dy + h <= mode.vertical
      requires buffer as object != shadow && buffer as object != frame
      requires forall y :: sy <= y < sy + h ==> HasRow(buffer.Length, pitch, sx, y, w)
      modifies shadow, frame
      ensures |data| == h && IsPacked(mode, data, buffer[..], pitch, sx, sy, w)
      ensures Painted(old(ShadowLines()), ShadowLines(), mode.Bytes(dx), dy, data)
      ensures Painted(old(FrameLines()), FrameLines(), mode.Bytes(dx), dy, data)
    {
      ghost var s0, f0, colors := ShadowLines(), FrameLines(), buffer[..];
      data := PackRows(mode, colors, pitch, sx, sy, w, h);
      var i := 0;
      while i < h
        invariant 0 <= i <= h && buffer[..] == colors
        invariant Progress(s0, ShadowLines(), mode.Bytes(dx), dy, data, 0, i)
        invariant Progress(f0, FrameLines(), mode.Bytes(dx), dy, data, 0, i)
      {
        assert HasRow(buffer.Length, pitch, sx, sy + i, w);
        var blt := BufferOffset(pitch, sx, sy + i);
        assert buffer[blt..blt + w] == Row(colors, pitch, sx, sy + i, w);
        PutRowNext(dx, dy, i, buffer[blt..blt + w], s0, f0, data);
        i := i + 1;
      }
    }

    // Row i of a rectangle, below the rows that are done.
    method PutRowNext(dx: nat, dy: nat, i: nat, cs: seq<Color>, ghost s0: seq<seq<Byte>>, ghost f0: seq<seq<Byte>>,
                      ghost data: seq<seq<Byte>>)
      requires Valid() && dx + |cs| <= mode.horizontal && dy + |data| <= mode.vertical && i < |data|
      requires data[i] == PackRow(mode, cs)
      requires Progress(s0, ShadowLines(), mode.Bytes(dx), dy, data, 0, i)
      requires Progress(f0, FrameLines(), mode.Bytes(dx), dy, data, 0, i)
      modifies shadow, frame
      ensures Progress(s0, ShadowLines(), mode.Bytes(dx), dy, data, 0, i + 1)
      ensures Progress(f0, FrameLines(), mode.Bytes(dx), dy, data, 0, i + 1)
    {
      ghost var s1, f1 := ShadowLines(), FrameLines();
      assert s1[dy + i] == s0[dy + i] && f1[dy + i] == f0[dy + i];
      PutRow(dx, dy + i, cs, data[i]);
      ProgressStep(s0, s1, ShadowLines(), mode.Bytes(dx), dy, data, 0, i, i);
      ProgressStep(f0, f1, FrameLines(), mode.Bytes(dx), dy, data, 0, i, i);
    }

    // One row of colours, into the shadow buffer and then to the screen.
    method PutRow(dx: nat, y: nat, cs: seq<Color>, ghost data: seq<Byte>)
      requires Valid() && dx + |cs| <= mode.horizontal && y < mode.vertical && data == PackRow(mode, cs)
      modifies shadow, frame
      ensures mode.Bytes(dx) + |data| <= |old(ShadowLines())[y]| && mode.Bytes(dx) + |data| <= |old(FrameLines())[y]|
      ensures ShadowLines() == old(ShadowLines())[y := Splice(old(ShadowLines())[y], mode.Bytes(dx), data)]
      ensures FrameLines() == old(FrameLines())[y := Splice(old(FrameLines())[y], mode.Bytes(dx), data)]
    {
      PackRowLength(mode, cs);
      InLine(dx, y, |cs|);
      PutColors(dx, y, cs);
      ReadInLine(shadow[..], mode.stride, mode.vertical, y, mode.Bytes(dx), |data|);
      var vbeBuffer := Address(dx, y);
      ShowBytes(vbeBuffer, dx, y, |cs|, data);
    }

    // The w colours of line y of the shadow buffer from pixel x on.
    ghost function Pixels(x: nat, y: nat, w: nat): seq<Color>
      requires Valid() && y < mode.vertical && mode.Bytes(x) + mode.Bytes(w) <= |ShadowLines()[y]|
      reads shadow
    {
      UnpackRow(mode, ShadowLines()[y][mode.Bytes(x)..mode.Bytes(x) + mode.Bytes(w)], w)
    }

    lemma LineLength(x: nat, y: nat, w: nat)
      requires Valid() && x + w <= mode.horizontal && y < mode.vertical
      ensures mode.Bytes(x) + mode.Bytes(w) <= |ShadowLines()[y]|
    {
      InLine(x, y, w);
      LinesShaped(shadow[..], mode.stride, mode.vertical);
    }

    /** EfiBltVideoToBltBuffer */
    method VideoToBuffer(buffer: array<Color>, pitch: nat, sx: nat, sy: nat, dx: nat, dy: nat, w: nat, h: nat)
      requires Valid() && sx + w <= mode.horizontal && sy + h <= mode.vertical && w <= pitch
      requires buffer as object != shadow
      requires forall y :: dy <= y < dy + h ==> HasRow(buffer.Length, pitch, dx, y, w)
      modifies buffer
      ensures Stored(old(buffer[..]), buffer[..], pitch, dx, dy, w, AllPixels(sx, sy, w, h))
    {
      ghost var was, rows := buffer[..], AllPixels(sx, sy, w, h);
      var i := 0;
      while i < h
        invariant 0 <= i <= h && AllPixels(sx, sy, w, h) == rows
        invariant Stored(was, buffer[..], pitch, dx, dy, w, rows[..i])
      {
        assert HasRow(buffer.Length, pitch, dx, dy + i, w);
        AllPixelsAt(sx, sy, w, h, i);
        StoreRow(buffer, pitch, sx, sy + i, dx, dy + i, w, dy, was, rows, i);
        i := i + 1;
      }
      assert rows[..h] == rows;
    }

    // One row of the rectangle, below the rows already stored.
    method StoreRow(buffer: array<Color>, pitch: nat, sx: nat, y: nat, dx: nat, dstY: nat, w: nat,
                    ghost top: nat, ghost was: seq<Color>, ghost rows: seq<seq<Color>>, ghost i: nat)
      requires Valid() && sx + w <= mode.horizontal && y < mode.vertical && w <= pitch && buffer as object != shadow
      requires dstY == top + i && i < |rows| && HasRow(buffer.Length, pitch, dx, dstY, w)
      requires mode.Bytes(sx) + mode.Bytes(w) <= |ShadowLines()[y]| && rows[i] == Pixels(sx, y, w)
      requires Stored(was, buffer[..], pitch, dx, top, w, rows[..i])
      modifies buffer
      ensures Stored(was, buffer[..], pitch, dx, top, w, rows[..i + 1])
    {
      ghost var mid := buffer[..];
      var blt := BufferOffset(pitch, dx, dstY);
      ReadRow(buffer, blt, sx, y, w);
      StoreNext(was, mid, buffer[..], pitch, dx, top, w, rows[..i], rows[i]);
      assert rows[..i] + [rows[i]] == rows[..i + 1];
    }

    // The colours of a rectangle, row by row.
    ghost function AllPixels(sx: nat, sy: nat, w: nat, h: nat): (rows: seq<seq<Color>>)
      requires Valid() && sx + w <= mode.horizontal && sy + h <= mode.vertical
      reads shadow
      ensures |rows| == h && forall i :: 0 <= i < h ==> |rows[i]| == w
    {
      if h == 0 then [] else (LineLength(sx, sy + h - 1, w); AllPixels(sx, sy, w, h - 1) + [Pixels(sx, sy + h - 1, w)])
    }

    lemma {:induction false} AllPixelsAt(sx: nat, sy: nat, w: nat, h: nat, i: nat)
      requires Valid() && sx + w <= mode.horizontal && sy + h <= mode.vertical && i < h
      ensures mode.Bytes(sx) + mode.Bytes(w) <= |ShadowLines()[sy + i]|
      ensures AllPixels(sx, sy, w, h)[i] == Pixels(sx, sy + i, w)
      decreases h
    {
      LineLength(sx, sy + i, w);
      if i < h - 1 {
        AllPixelsAt(sx, sy, w, h - 1, i);
      }
    }

    // One row of pixels, read pixel by pixel into the buffer.
    method ReadRow(buffer: array<Color>, blt: nat, sx: nat, y: nat, w: nat)
      requires Valid() && sx + w <= mode.horizontal && y < mode.vertical && blt + w <= buffer.Length
      requires buffer as object != shadow && mode.Bytes(sx) + mode.Bytes(w) <= |ShadowLines()[y]|
      modifies buffer
      ensures buffer[..] == Splice(old(buffer[..]), blt, Pixels(sx, y, w))
    {
      ghost var line := ShadowLines()[y];
      ghost var bytes := line[mode.Bytes(sx)..mode.Bytes(sx) + mode.Bytes(w)];
      ghost var row := UnpackRow(mode, bytes, w);
      var i := 0;
      while i < w
        invariant 0 <= i <= w
        invariant forall j :: 0 <= j < buffer.Length ==>
          buffer[j] == if blt <= j < blt + i then row[j - blt] else old(buffer[j])
      {
        NextPixel(mode, shadow[..], sx, y, w, i, line, bytes, At(sx + i, y));
        var color := ReadPixel(sx + i, y);
        buffer[blt + i] := color;
        i := i + 1;
      }
      SpliceAt(old(buffer[..]), buffer[..], blt, row);
    }

    method ReadPixel(x: nat, y: nat) returns (color: Color)
      requires At(x, y) + mode.size <= shadow.Length
      ensures color == mode.unpack(shadow[..][At(x, y)..At(x, y) + mode.size])
    {
      var vbeBuffer := Address(x, y);
      assert shadow[..][vbeBuffer..vbeBuffer + mode.size] == shadow[vbeBuffer..vbeBuffer + mode.size];
      color := mode.unpack(shadow[vbeBuffer..vbeBuffer + mode.size]);
    }

    // The rows of a transfer to the screen cover all that is visible.
    lemma WholeScreen(h: nat, w: nat, data: seq<seq<Byte>>)
      requires Valid() && w == mode.horizontal && h == mode.vertical == |data|
      requires forall i :: 0 <= i < h ==> |data[i]| == mode.Bytes(w)
      ensures mode.Bytes(0) == 0
      ensures forall z: nat, i: nat :: z < |ShadowLines()| && i < mode.Bytes(mode.horizontal) ==>
        InPaint(i, z, mode.Bytes(0), 0, data)
    {
    }

    // What painting both buffers does to their agreement
    lemma PaintedBoth(s0: seq<seq<Byte>>, f0: seq<seq<Byte>>, dx: nat, dy: nat, w: nat, data: seq<seq<Byte>>)
      requires Valid() && Shaped(s0, mode.stride) && Shaped(f0, mode.stride) && |s0| == |f0| == mode.vertical
      requires Painted(s0, ShadowLines(), mode.Bytes(dx), dy, data)
      requires Painted(f0, FrameLines(), mode.Bytes(dx), dy, data)
      requires forall i :: 0 <= i < |data| ==> |data[i]| == mode.Bytes(w)
      ensures Mended(s0, f0, ShadowLines(), FrameLines(), mode.Bytes(mode.horizontal), mode.Bytes(dx), dy, data)
      ensures Agree(s0, f0, mode.Bytes(mode.horizontal)) ==> Coherent()
      ensures dx == dy == 0 && w == mode.horizontal && |data| == mode.vertical ==> Coherent()
    {
      PaintBoth(s0, f0, ShadowLines(), FrameLines(), mode.Bytes(mode.horizontal), mode.Bytes(dx), dy, data);
      if dx == dy == 0 && w == mode.horizontal && |data| == mode.vertical {
        WholeScreen(|data|, w, data);
      }
    }

    /**
     * BiosVideoGraphicsOutputVbeBlt; `delta` is in bytes, 0 meaning rows of exactly w colours.  A rectangle that passes
     * the check off the screen is not followed: nothing is said of the buffers then.
     */
    method Blt(op: Op, buffer: array<Color>, sx: nat, sy: nat, dx: nat, dy: nat, w: nat, h: nat, delta: nat)
      returns (outcome: Outcome, ghost data: seq<seq<Byte>>)
      requires Valid() && buffer as object != shadow && buffer as object != frame && delta % 4 == 0
      requires OnScreen(Visible(), ToCheck(op, sx, sy, dx, dy, w, h)) ==>
        Addressable(mode, op, buffer.Length, Pitch(w, delta), sx, sy, dx, dy, w, h)
      modifies shadow, frame, buffer
      ensures outcome == Checked(x64, Visible(), ToCheck(op, sx, sy, dx, dy, w, h))
      ensures outcome == Refused ==> unchanged(shadow) && unchanged(frame) && unchanged(buffer)
      ensures outcome == Drawn && op != ToBuffer ==>
        && unchanged(buffer) && |data| == h && (forall i :: 0 <= i < h ==> |data[i]| == mode.Bytes(w))
        && Painted(old(ShadowLines()), ShadowLines(), mode.Bytes(dx), dy, data)
        && Painted(old(FrameLines()), FrameLines(), mode.Bytes(dx), dy, data)
        && Mended(old(ShadowLines()), old(FrameLines()), ShadowLines(), FrameLines(), mode.Bytes(mode.horizontal),
                  mode.Bytes(dx), dy, data)
        && (old(Coherent()) || (dx == dy == 0 && w == mode.horizontal && h == mode.vertical) ==> Coherent())
      ensures outcome == Drawn && op == Fill ==>
        var color := buffer[0]; data == seq(h, _ => PackRow(mode, seq(w, _ => color)))
      ensures outcome == Drawn && op == Move && MovesRight(mode, sx, sy, dy, w) ==>
        Held(mode, old(shadow[..]), sx, sy, w, data)
      ensures outcome == Drawn && op == Move && Inside(sx, sy, w, h) ==>
        IsCut(old(ShadowLines()), mode.Bytes(sx), sy, mode.Bytes(w), data)
      ensures outcome == Drawn && op == FromBuffer ==>
        IsPacked(mode, data, buffer[..], Pitch(w, delta), sx, sy, w)
      ensures outcome == Drawn && op == ToBuffer ==>
        && unchanged(shadow) && unchanged(frame)
        && Stored(old(buffer[..]), buffer[..], Pitch(w, delta), dx, dy, w, AllPixels(sx, sy, w, h))
    {
      if w == 0 || h == 0 {
        return Refused, [];
      }
      if op == ToBuffer {
        if UintN(x64, sy + h) > mode.vertical || UintN(x64, sx + w) > mode.horizontal {
          return Refused, [];
        }
      } else {
        if UintN(x64, dy + h) > mode.vertical || UintN(x64, dx + w) > mode.horizontal {
          return Refused, [];
        }
      }
      if !OnScreen(Visible(), ToCheck(op, sx, sy, dx, dy, w, h)) {
        return Astray, [];
      }
      data := Transferred(op, buffer, sx, sy, dx, dy, w, h, if delta == 0 then w else delta / 4);
      outcome := Drawn;
    }

    function Visible(): Size { Size(mode.horizontal, mode.vertical) }

    // The transfer itself
    method Transferred(op: Op, buffer: array<Color>, sx: nat, sy: nat, dx: nat, dy: nat, w: nat, h: nat, pitch: nat)
      returns (ghost data: seq<seq<Byte>>)
      requires Valid() && buffer as object != shadow && buffer as object != frame
      requires OnScreen(Visible(), ToCheck(op, sx, sy, dx, dy, w, h))
      requires Addressable(mode, op, buffer.Length, pitch, sx, sy, dx, dy, w, h)
      modifies shadow, frame, buffer
      ensures op != ToBuffer ==>
        && unchanged(buffer) && |data| == h && (forall i :: 0 <= i < h ==> |data[i]| == mode.Bytes(w))
        && Painted(old(ShadowLines()), ShadowLines(), mode.Bytes(dx), dy, data)
        && Painted(old(FrameLines()), FrameLines(), mode.Bytes(dx), dy, data)
        && Mended(old(ShadowLines()), old(FrameLines()), ShadowLines(), FrameLines(), mode.Bytes(mode.horizontal),
                  mode.Bytes(dx), dy, data)
        && (old(Coherent()) || (dx == dy == 0 && w == mode.horizontal && h == mode.vertical) ==> Coherent())
      ensures op == Fill ==> var color := buffer[0]; data == seq(h, _ => PackRow(mode, seq(w, _ => color)))
      ensures op == Move && MovesRight(mode, sx, sy, dy, w) ==> Held(mode, old(shadow[..]), sx, sy, w, data)
      ensures op == Move && Inside(sx, sy, w, h) ==>
        IsCut(old(ShadowLines()), mode.Bytes(sx), sy, mode.Bytes(w), data)
      ensures op == FromBuffer ==> IsPacked(mode, data, buffer[..], pitch, sx, sy, w)
      ensures op == ToBuffer ==>
        && unchanged(shadow) && unchanged(frame)
        && Stored(old(buffer[..]), buffer[..], pitch, dx, dy, w, AllPixels(sx, sy, w, h))
    {
      ghost var s0, f0 := ShadowLines(), FrameLines();
      LinesShaped(shadow[..], mode.stride, mode.vertical);
      LinesShaped(frame[..], mode.stride, mode.vertical);
      match op {
        case ToBuffer =>
          VideoToBuffer(buffer, pitch, sx, sy, dx, dy, w, h);
          return [];
        case Move =>
          data := VideoToVideo(sx, sy, dx, dy, w, h);
        case Fill =>
          var color := buffer[0];
          data := VideoFill(color, dx, dy, w, h);
          PackRowLength(mode, seq(w, _ => color));
        case FromBuffer =>
          data := BufferToVideo(buffer, pitch, sx, sy, dx, dy, w, h);
          PackedLengths(data, buffer[..], pitch, sx, sy, w);
      }
      PaintedBoth(s0, f0, dx, dy, w, data);
    }

    lemma PackedLengths(data: seq<seq<Byte>>, colors: seq<Color>, pitch: nat, x: nat, y: nat, w: nat)
      requires ValidMode(mode) && IsPacked(mode, data, colors, pitch, x, y, w)
      ensures forall i :: 0 <= i < |data| ==> |data[i]| == mode.Bytes(w)
    {
      forall i | 0 <= i < |data| ensures |data[i]| == mode.Bytes(w) {
        assert data[y + i - y] == PackRow(mode, Row(colors, pitch, x, y + i, w));
        PackRowLength(mode, Row(colors, pitch, x, y + i, w));
      }
    }
  }
}

/**
 * A frame buffer as a sequence of scan lines: the flat memory of `height` lines of `stride` bytes, and
 * what writing a run of bytes into one line does to the lines.
 */
module Raster {

  function Splice<T>(s: seq<T>, at: nat, data: seq<T>): (r: seq<T>)
    requires at + |data| <= |s|
    ensures |r| == |s|
  {
    s[..at] + data + s[at + |data|..]
  }

  lemma SpliceIndex<T>(s: seq<T>, at: nat, data: seq<T>, k: nat)
    requires at + |data| <= |s| && k < |s|
    ensures Splice(s, at, data)[k] == if at <= k < at + |data| then data[k - at] else s[k]
  {
  }

  lemma SpliceAt<T>(before: seq<T>, after: seq<T>, at: nat, data: seq<T>)
    requires |after| == |before| && at + |data| <= |before|
    requires forall i :: 0 <= i < |before| ==> after[i] == if at <= i < at + |data| then data[i - at] else before[i]
    ensures after == Splice(before, at, data)
  {
  }

  lemma SpliceMore<T>(s: seq<T>, at: nat, first: seq<T>, more: seq<T>)
    requires at + |first| + |more| <= |s|
    ensures Splice(Splice(s, at, first), at + |first|, more) == Splice(s, at, first + more)
  {
  }

  lemma SliceOfSlice<T>(s: seq<T>, a: nat, b: nat, i: nat, j: nat)
    requires a <= b <= |s| && i <= j <= b - a
    ensures s[a..b][i..j] == s[a + i..a + j]
  {
    var nested, direct := s[a..b][i..j], s[a + i..a + j];
    forall k | 0 <= k < j - i ensures nested[k] == direct[k] {
      assert s[a..b][i + k] == s[a + (i + k)];
    }
  }

  // Where line y starts; the same as y * stride.
  function Offset(stride: nat, y: nat): nat { if y == 0 then 0 else Offset(stride, y - 1) + stride }

  lemma {:induction false} OffsetIsProduct(stride: nat, y: nat)
    ensures Offset(stride, y) == y * stride
  {
    if y > 0 {
      OffsetIsProduct(stride, y - 1);
      assert y * stride == (y - 1) * stride + stride;
    }
  }

  lemma {:induction false} OffsetGrows(stride: nat, y: nat, z: nat)
    requires y < z
    ensures Offset(stride, y) + stride <= Offset(stride, z)
    decreases z
  {
    if y < z - 1 {
      OffsetGrows(stride, y, z - 1);
    }
  }

  function Line<T>(s: seq<T>, stride: nat, y: nat): seq<T>
    requires Offset(stride, y) + stride <= |s|
  {
    s[Offset(stride, y)..Offset(stride, y) + stride]
  }

  ghost predicate IsRaster<T>(s: seq<T>, stride: nat, height: nat) { |s| == Offset(stride, height) }

  function Lines<T>(s: seq<T>, stride: nat, height: nat): (r: seq<seq<T>>)
    requires Offset(stride, height) <= |s|
    ensures |r| == height
  {
    if height == 0 then [] else Lines(s, stride, height - 1) + [Line(s, stride, height - 1)]
  }

  lemma {:induction false} LinesAt<T>(s: seq<T>, stride: nat, height: nat, y: nat)
    requires Offset(stride, height) <= |s| && y < height
    ensures Offset(stride, y) + stride <= |s| && Lines(s, stride, height)[y] == Line(s, stride, y)
    decreases height
  {
    OffsetGrows(stride, y, height);
    if y < height - 1 {
      LinesAt(s, stride, height - 1, y);
    }
  }

  // Writing inside line y changes that line there and no other line.
  lemma WriteInLine<T>(s: seq<T>, stride: nat, height: nat, y: nat, x: nat, data: seq<T>)
    requires IsRaster(s, stride, height) && y < height && x + |data| <= stride
    ensures Offset(stride, y) + x + |data| <= |s| && |Lines(s, stride, height)[y]| == stride
    ensures Lines(Splice(s, Offset(stride, y) + x, data), stride, height)
         == Lines(s, stride, height)[y := Splice(Lines(s, stride, height)[y], x, data)]
  {
    OffsetGrows(stride, y, height);
    LinesAt(s, stride, height, y);
    var s' := Splice(s, Offset(stride, y) + x, data);
    var before, after := Lines(s, stride, height), Lines(s', stride, height);
    forall z | 0 <= z < height ensures after[z] == if z == y then Splice(before[y], x, data) else before[z] {
      LinesAt(s, stride, height, z);
      LinesAt(s', stride, height, z);
      if z == y {
        OwnLine(s, stride, y, x, data);
      } else {
        OtherLine(s, stride, y, x, data, z);
      }
    }
  }

  lemma OwnLine<T>(s: seq<T>, stride: nat, y: nat, x: nat, data: seq<T>)
    requires x + |data| <= stride && Offset(stride, y) + stride <= |s|
    ensures Line(Splice(s, Offset(stride, y) + x, data), stride, y) == Splice(Line(s, stride, y), x, data)
  {
    SliceAround(s, Offset(stride, y), x, data, stride);
  }

  lemma OtherLine<T>(s: seq<T>, stride: nat, y: nat, x: nat, data: seq<T>, z: nat)
    requires x + |data| <= stride && y != z
    requires Offset(stride, y) + stride <= |s| && Offset(stride, z) + stride <= |s|
    ensures Line(Splice(s, Offset(stride, y) + x, data), stride, z) == Line(s, stride, z)
  {
    var at, o := Offset(stride, y) + x, Offset(stride, z);
    if z < y {
      OffsetGrows(stride, z, y);
      SliceAway(s, at, data, o, stride);
    } else {
      OffsetGrows(stride, y, z);
      SliceAway(s, at, data, o, stride);
    }
  }

  // A slice that the data does not touch
  lemma SliceAway<T>(s: seq<T>, at: nat, data: seq<T>, o: nat, n: nat)
    requires at + |data| <= |s| && o + n <= |s| && (o + n <= at || at + |data| <= o)
    ensures Splice(s, at, data)[o..o + n] == s[o..o + n]
  {
    var was, now := s[o..o + n], Splice(s, at, data)[o..o + n];
    forall k | 0 <= k < n ensures now[k] == was[k] {
      SpliceIndex(s, at, data, o + k);
    }
  }

  // A slice that the data lies in
  lemma SliceAround<T>(s: seq<T>, o: nat, x: nat, data: seq<T>, n: nat)
    requires o + n <= |s| && x + |data| <= n
    ensures Splice(s, o + x, data)[o..o + n] == Splice(s[o..o + n], x, data)
  {
    var now, goal := Splice(s, o + x, data)[o..o + n], Splice(s[o..o + n], x, data);
    forall k | 0 <= k < n ensures now[k] == goal[k] {
      SpliceIndex(s, o + x, data, o + k);
      SpliceIndex(s[o..o + n], x, data, k);
    }
  }

  // Reading inside line y.
  lemma ReadInLine<T>(s: seq<T>, stride: nat, height: nat, y: nat, x: nat, n: nat)
    requires IsRaster(s, stride, height) && y < height && x + n <= stride
    ensures Offset(stride, y) + x + n <= |s| && |Lines(s, stride, height)[y]| == stride
    ensures s[Offset(stride, y) + x..Offset(stride, y) + x + n] == Lines(s, stride, height)[y][x..x + n]
  {
    LinesAt(s, stride, height, y);
    var line := Line(s, stride, y);
    var direct, inLine := s[Offset(stride, y) + x..Offset(stride, y) + x + n], line[x..x + n];
    forall k | 0 <= k < n ensures direct[k] == inLine[k] {
      assert line[x + k] == s[Offset(stride, y) + (x + k)];
    }
  }

  // What two flat memories have from line m on is the same if their lines are.
  lemma {:induction false} LinesTail<T>(a: seq<T>, b: seq<T>, stride: nat, height: nat, m: nat)
    requires Offset(stride, height) <= |a| == |b| && m <= height
    requires forall z :: m <= z < height ==> Lines(b, stride, height)[z] == Lines(a, stride, height)[z]
    ensures forall j :: Offset(stride, m) <= j < Offset(stride, height) ==> a[j] == b[j]
    decreases height
  {
    if m < height {
      var last := height - 1;
      assert Line(a, stride, last) == Line(b, stride, last) by {
        assert Lines(b, stride, height)[last] == Lines(a, stride, height)[last];
      }
      forall z | m <= z < last ensures Lines(b, stride, last)[z] == Lines(a, stride, last)[z] {
        assert Lines(b, stride, height)[z] == Lines(a, stride, height)[z];
      }
      LinesTail(a, b, stride, last, m);
      forall j | Offset(stride, last) <= j < Offset(stride, height) ensures a[j] == b[j] {
        assert Line(a, stride, last)[j - Offset(stride, last)] == Line(b, stride, last)[j - Offset(stride, last)];
      }
    }
  }

  // A part of a row that lies inside line y
  lemma PartOfRow<T>(s: seq<T>, line: seq<T>, row: seq<T>, stride: nat, height: nat, y: nat, x: nat, n: nat,
                     a: nat, size: nat, at: nat)
    requires IsRaster(s, stride, height) && y < height && line == Lines(s, stride, height)[y]
    requires x + n <= |line| && row == line[x..x + n] && a + size <= n && at == Offset(stride, y) + x + a
    ensures at + size <= |s| && |row| == n && s[at..at + size] == row[a..a + size]
  {
    LinesAt(s, stride, height, y);
    var o, there, here := Offset(stride, y), s[at..at + size], row[a..a + size];
    forall k | 0 <= k < size ensures there[k] == here[k] {
      assert line[x + a + k] == s[o + (x + a + k)];
    }
  }

  // Rows are all of length `stride`.
  ghost predicate Shaped<T>(rows: seq<seq<T>>, stride: nat) { forall y :: 0 <= y < |rows| ==> |rows[y]| == stride }

  lemma LinesShaped<T>(s: seq<T>, stride: nat, height: nat)
    requires IsRaster(s, stride, height)
    ensures Shaped(Lines(s, stride, height), stride)
  {
    forall y | 0 <= y < height ensures |Lines(s, stride, height)[y]| == stride {
      LinesAt(s, stride, height, y);
    }
  }

  // n elements at x in line y of a raster.
  predicate HasRow(length: nat, stride: nat, x: nat, y: nat, n: nat) { Offset(stride, y) + x + n <= length }

  function Row<T>(s: seq<T>, stride: nat, x: nat, y: nat, n: nat): (r: seq<T>)
    requires HasRow(|s|, stride, x, y, n)
    ensures |r| == n
  {
    s[Offset(stride, y) + x..Offset(stride, y) + x + n]
  }

  lemma SameRow<T>(a: seq<T>, b: seq<T>, stride: nat, x: nat, y: nat, n: nat)
    requires |a| == |b| && HasRow(|a|, stride, x, y, n)
    requires forall j :: Offset(stride, y) + x <= j < Offset(stride, y) + x + n ==> a[j] == b[j]
    ensures Row(a, stride, x, y, n) == Row(b, stride, x, y, n)
  {
  }

  // A row in a line that is the same
  lemma OwnRow<T>(a: seq<T>, b: seq<T>, line: seq<T>, stride: nat, height: nat, x: nat, y: nat, n: nat)
    requires Offset(stride, height) == |a| == |b| && y < height && x + n <= stride
    requires Lines(a, stride, height)[y] == line && Lines(b, stride, height)[y] == line
    ensures HasRow(|a|, stride, x, y, n) && Row(b, stride, x, y, n) == Row(a, stride, x, y, n)
  {
    RowInLine(a, line, stride, height, x, y, n);
    RowInLine(b, line, stride, height, x, y, n);
  }

  lemma RowInLine<T>(s: seq<T>, line: seq<T>, stride: nat, height: nat, x: nat, y: nat, n: nat)
    requires IsRaster(s, stride, height) && y < height && x + n <= stride && line == Lines(s, stride, height)[y]
    ensures |line| == stride && HasRow(|s|, stride, x, y, n) && Row(s, stride, x, y, n) == line[x..x + n]
  {
    ReadInLine(s, stride, height, y, x, n);
  }

  // A row in memory that is the same from line m on
  lemma TailRow<T>(a: seq<T>, b: seq<T>, la: seq<seq<T>>, lb: seq<seq<T>>, stride: nat, height: nat, m: nat,
                   x: nat, y: nat, n: nat)
    requires Offset(stride, height) == |a| == |b| && m <= height && m <= y && HasRow(|a|, stride, x, y, n)
    requires la == Lines(a, stride, height) && lb == Lines(b, stride, height)
    requires forall z :: m <= z < height ==> lb[z] == la[z]
    ensures Row(b, stride, x, y, n) == Row(a, stride, x, y, n)
  {
    LinesTail(a, b, stride, height, m);
    RowAfter(a, b, stride, m, x, y, n);
  }

  lemma RowAfter<T>(a: seq<T>, b: seq<T>, stride: nat, m: nat, x: nat, y: nat, n: nat)
    requires |a| == |b| && m <= y && HasRow(|a|, stride, x, y, n)
    requires forall j :: Offset(stride, m) <= j < |a| ==> a[j] == b[j]
    ensures Row(b, stride, x, y, n) == Row(a, stride, x, y, n)
  {
    if m < y {
      OffsetGrows(stride, m, y);
    }
    SameRow(b, a, stride, x, y, n);
  }

  predicate InRow(stride: nat, x: nat, y: nat, n: nat, j: nat)
  {
    Offset(stride, y) + x <= j < Offset(stride, y) + x + n
  }

  // `after` is `before` with data[i] written at x in line y+i, for every i.
  ghost predicate Painted<T>(before: seq<seq<T>>, after: seq<seq<T>>, x: nat, y: nat, data: seq<seq<T>>) {
    && |after| == |before| && y + |data| <= |before|
    && (forall z :: 0 <= z < |before| && !(y <= z < y + |data|) ==> after[z] == before[z])
    && forall z :: y <= z < y + |data| ==>
         x + |data[z - y]| <= |before[z]| && after[z] == Splice(before[z], x, data[z - y])
  }

  // data[i] is what is at [x, x+n) of line y+i, for every i.
  ghost predicate IsCut<T>(rows: seq<seq<T>>, x: nat, y: nat, n: nat, data: seq<seq<T>>) {
    && y + |data| <= |rows|
    && forall i :: 0 <= i < |data| ==> x + n <= |rows[y + i]| && data[i] == rows[y + i][x..x + n]
  }

  lemma RowsAreCut<T>(s: seq<T>, rows: seq<seq<T>>, stride: nat, height: nat, x: nat, y: nat, n: nat,
                      data: seq<seq<T>>)
    requires IsRaster(s, stride, height) && rows == Lines(s, stride, height) && y + |data| <= height && x + n <= stride
    requires forall i :: 0 <= i < |data| ==> HasRow(|s|, stride, x, y + i, n) && data[i] == Row(s, stride, x, y + i, n)
    ensures IsCut(rows, x, y, n, data)
  {
    LinesShaped(s, stride, height);
    forall i | 0 <= i < |data| ensures data[i] == rows[y + i][x..x + n] {
      RowInLine(s, rows[y + i], stride, height, x, y + i, n);
    }
  }

  /** What was painted can be cut out again, and is all there is to see of what was there before. */
  lemma CutPainted<T>(before: seq<seq<T>>, after: seq<seq<T>>, x: nat, y: nat, n: nat, data: seq<seq<T>>)
    requires Painted(before, after, x, y, data) && forall i :: 0 <= i < |data| ==> |data[i]| == n
    ensures IsCut(after, x, y, n, data)
  {
    forall i | 0 <= i < |data| ensures x + n <= |after[y + i]| && data[i] == after[y + i][x..x + n] {
      assert after[y + i] == Splice(before[y + i], x, data[y + i - y]);
    }
  }

  // `after` is `before` with rows[i] stored at x in line y+i of lines `pitch` apart, for every i; lines may
  // be shorter than the memory, so this does not speak of whole lines.
  ghost predicate Stored<T>(before: seq<T>, after: seq<T>, pitch: nat, x: nat, y: nat, w: nat, rows: seq<seq<T>>) {
    && |after| == |before|
    && (forall z :: y <= z < y + |rows| ==>
          HasRow(|after|, pitch, x, z, w) && |rows[z - y]| == w && Row(after, pitch, x, z, w) == rows[z - y])
    && forall j :: 0 <= j < |before| && (forall z :: y <= z < y + |rows| ==> !InRow(pitch, x, z, w, j)) ==>
      after[j] == before[j]
  }

  lemma StoreNext<T>(before: seq<T>, mid: seq<T>, after: seq<T>, pitch: nat, x: nat, y: nat, w: nat,
                     rows: seq<seq<T>>, next: seq<T>)
    requires w <= pitch && Stored(before, mid, pitch, x, y, w, rows)
    requires |next| == w && HasRow(|mid|, pitch, x, y + |rows|, w)
    requires after == Splice(mid, Offset(pitch, y + |rows|) + x, next)
    ensures Stored(before, after, pitch, x, y, w, rows + [next])
  {
    var n, more := y + |rows|, rows + [next];
    forall z | y <= z < y + |more|
      ensures HasRow(|after|, pitch, x, z, w) && |more[z - y]| == w && Row(after, pitch, x, z, w) == more[z - y]
    {
      StoredRow(before, mid, after, pitch, x, y, w, rows, next, z);
    }
    forall j | 0 <= j < |before| && (forall z :: y <= z < y + |more| ==> !InRow(pitch, x, z, w, j))
      ensures after[j] == before[j]
    {
      assert !InRow(pitch, x, n, w, j);
      SpliceIndex(mid, Offset(pitch, n) + x, next, j);
    }
  }

  lemma StoredRow<T>(before: seq<T>, mid: seq<T>, after: seq<T>, pitch: nat, x: nat, y: nat, w: nat,
                     rows: seq<seq<T>>, next: seq<T>, z: nat)
    requires w <= pitch && Stored(before, mid, pitch, x, y, w, rows) && y <= z <= y + |rows|
    requires |next| == w && HasRow(|mid|, pitch, x, y + |rows|, w)
    requires after == Splice(mid, Offset(pitch, y + |rows|) + x, next)
    ensures |(rows + [next])[z - y]| == w && HasRow(|after|, pitch, x, z, w)
    ensures Row(after, pitch, x, z, w) == (rows + [next])[z - y]
  {
    var n := y + |rows|;
    var at := Offset(pitch, n) + x;
    if z < n {
      OffsetGrows(pitch, z, n);
      RowKept(mid, after, at, next, pitch, x, z, w);
    } else {
      RowWritten(mid, at, next, pitch, x, n, w);
    }
  }

  lemma RowKept<T>(mid: seq<T>, after: seq<T>, at: nat, next: seq<T>, pitch: nat, x: nat, z: nat, w: nat)
    requires at + |next| <= |mid| && after == Splice(mid, at, next)
    requires Offset(pitch, z) + x + w <= at
    ensures Row(after, pitch, x, z, w) == Row(mid, pitch, x, z, w)
  {
    var was, now := Row(mid, pitch, x, z, w), Row(after, pitch, x, z, w);
    forall k | 0 <= k < w ensures now[k] == was[k] {
      SpliceIndex(mid, at, next, Offset(pitch, z) + x + k);
    }
  }

  lemma RowWritten<T>(mid: seq<T>, at: nat, next: seq<T>, pitch: nat, x: nat, n: nat, w: nat)
    requires at == Offset(pitch, n) + x && |next| == w && at + w <= |mid|
    ensures Row(Splice(mid, at, next), pitch, x, n, w) == next
  {
    var now := Row(Splice(mid, at, next), pitch, x, n, w);
    forall k | 0 <= k < w ensures now[k] == next[k] {
      SpliceIndex(mid, at, next, at + k);
    }
  }
}

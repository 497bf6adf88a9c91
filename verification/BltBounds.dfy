/**
 * How both block transfers (BiosVideoThunkDxe/BiosVideo.c) take their arguments: the rows of the caller's buffer, and
 * the check of the rectangle on the screen, whose sums are cut to a machine word.
 */
module BltBounds {
  import opened MachineWords
  import opened Raster

  // Colours from one row of the caller's buffer to the next; `delta` is in bytes, 0 meaning rows of w colours.
  function Pitch(w: nat, delta: nat): nat { if delta == 0 then w else delta / 4 }

  /**
   * Where colour i of row j of the caller's buffer is, in bytes of which a colour has four: `delta` from row to row,
   * cut to whole colours, or, if it is 0, rows of w colours right behind each other.
   */
  lemma ColorsMean(w: nat, delta: nat, j: nat, i: nat)
    ensures delta != 0 && delta % 4 == 0 ==> 4 * (Offset(Pitch(w, delta), j) + i) == j * delta + 4 * i
    ensures delta != 0 ==> 4 * (Offset(Pitch(w, delta), j) + i) == 4 * (j * (delta / 4)) + 4 * i
    ensures delta == 0 ==> 4 * (Offset(Pitch(w, delta), j) + i) == j * (4 * w) + 4 * i
  {
    OffsetIsProduct(if delta == 0 then w else delta / 4, j);
    assert delta % 4 == 0 ==> j * delta == 4 * (j * (delta / 4));
    assert j * (4 * w) == 4 * (j * w);
  }

  // A rectangle, and the size of a screen
  datatype Rect = Rect(x: nat, y: nat, w: nat, h: nat)
  datatype Size = Size(width: nat, height: nat)

  predicate OnScreen(s: Size, r: Rect) { r.w != 0 && r.h != 0 && r.x + r.w <= s.width && r.y + r.h <= s.height }

  // The check as it is made
  predicate Passes(x64: bool, s: Size, r: Rect) {
    && r.w != 0 && r.h != 0
    && UintN(x64, r.y + r.h) <= s.height && UintN(x64, r.x + r.w) <= s.width
  }

  predicate SumWraps(x64: bool, r: Rect) { r.x + r.w >= WordRange(x64) || r.y + r.h >= WordRange(x64) }

  // The arguments are words, and the screen is smaller than they can be.
  predicate AreWords(x64: bool, s: Size, r: Rect) {
    && r.x < WordRange(x64) && r.y < WordRange(x64) && r.w < WordRange(x64) && r.h < WordRange(x64)
    && s.width < TWO32 && s.height < TWO32
  }

  // What becomes of a transfer: it is refused, it is carried out, or it is carried out off the screen, that is, outside
  // the frame buffer.
  datatype Outcome = Refused | Drawn | Astray

  function Checked(x64: bool, s: Size, r: Rect): Outcome {
    if !Passes(x64, s, r) then Refused else if OnScreen(s, r) then Drawn else Astray
  }

  // A sum that passes is small enough or wraps to a number that is.
  predicate SumPasses(x64: bool, a: nat, n: nat, limit: nat) {
    a + n <= limit || WordRange(x64) <= a + n <= WordRange(x64) + limit
  }

  lemma SumPassesIff(x64: bool, a: nat, n: nat, limit: nat)
    requires a < WordRange(x64) && n < WordRange(x64) && limit < TWO32
    ensures UintN(x64, a + n) <= limit <==> SumPasses(x64, a, n, limit)
  {
    PlusN(x64, a, n);
  }

  /** Exactly which rectangles pass */
  lemma PassesIff(x64: bool, s: Size, r: Rect)
    requires AreWords(x64, s, r)
    ensures Passes(x64, s, r) <==>
      r.w != 0 && r.h != 0 && SumPasses(x64, r.x, r.w, s.width) && SumPasses(x64, r.y, r.h, s.height)
  {
    SumPassesIff(x64, r.x, r.w, s.width);
    SumPassesIff(x64, r.y, r.h, s.height);
  }

  /**
   * Every rectangle on the screen passes, and one that passes is on the screen if and only if neither sum wraps around.
   */
  lemma CheckedIff(x64: bool, s: Size, r: Rect)
    requires AreWords(x64, s, r)
    ensures OnScreen(s, r) ==> Passes(x64, s, r)
    ensures Passes(x64, s, r) ==> (OnScreen(s, r) <==> !SumWraps(x64, r))
    ensures Checked(x64, s, r) == Astray <==> Passes(x64, s, r) && SumWraps(x64, r)
  {
    PassesIff(x64, s, r);
  }

  /** On every screen the pixel before the first line passes, and so does the one before the first column. */
  lemma PassesOffScreen(x64: bool, s: Size)
    requires 0 < s.width < TWO32 && 0 < s.height < TWO32
    ensures Checked(x64, s, Rect(0, WordRange(x64) - 1, 1, 1)) == Astray
    ensures Checked(x64, s, Rect(WordRange(x64) - 1, 0, 1, 1)) == Astray
  {
    PassesIff(x64, s, Rect(0, WordRange(x64) - 1, 1, 1));
    PassesIff(x64, s, Rect(WordRange(x64) - 1, 0, 1, 1));
  }
}

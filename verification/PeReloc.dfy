/**
 * Base relocations of a loaded PE image (EfiLdr/PeLoader.c; "The .reloc Section (Image Only)" in the Microsoft
 * PE/COFF specification).
 *
 * The relocation directory lies inside the image that is being patched, so it is read while the image
 * changes.  Offsets here count from the base of the image; the base and the fixup log are page aligned.
 */
module PeReloc {
  import opened Arithmetic
  import opened LittleEndian
  import opened MachineWords
  import opened Raster

  function Field(image: seq<Byte>, at: nat, width: nat): nat
    requires at + width <= |image|
  {
    Le(image[at..at + width])
  }

  const ABSOLUTE: nat := 0
  const HIGH: nat := 1
  const LOW: nat := 2
  const HIGHLOW: nat := 3
  const DIR64: nat := 10

  // What a relocation entry asks for, or why the walk over the directory ends there: a block that runs past the
  // image, or one of size zero.
  datatype Item = Fixup(kind: nat, offset: nat) | PastImage | Stuck

  function Width(i: Item): nat {
    if !i.Fixup? || i.kind == ABSOLUTE then 0
    else if i.kind == HIGH || i.kind == LOW then 2
    else if i.kind == HIGHLOW then 4
    else if i.kind == DIR64 then 8
    else 0
  }

  // The items that are carried out; the loader reports the first two kinds of others and hangs on the third.
  predicate Known(i: Item) { i.Fixup? && i.kind in {ABSOLUTE, HIGH, LOW, HIGHLOW, DIR64} }

  // 256 to the width of a field
  function Range(i: Item): (m: nat)
    ensures m > 0
  {
    if Width(i) == 2 then 0x1_0000 else if Width(i) == 4 then 0x1_0000_0000
    else if Width(i) == 8 then 0x1_0000_0000_0000_0000 else 1
  }

  lemma RangeIsModulus(i: Item)
    ensures Range(i) == Modulus(Width(i))
  {
    assert Modulus(2) == 0x1_0000;
    assert Modulus(4) == 0x1_0000_0000;
    assert Modulus(6) == 0x1_0000_0000_0000;
    assert Modulus(8) == 0x1_0000_0000_0000_0000;
  }

  // What is added to a field
  function Delta(i: Item, adjust: nat): nat {
    if i.Fixup? && i.kind == HIGH then adjust % 0x1_0000_0000 / 0x1_0000 else adjust % Range(i)
  }

  predicate InImage(i: Item, length: nat) { Width(i) == 0 || (i.Fixup? && i.offset + Width(i) <= length) }

  predicate Away(i: Item, from: nat, to: nat)
  {
    Width(i) == 0 || (i.Fixup? && (i.offset + Width(i) <= from || to <= i.offset))
  }

  function Added(i: Item, v: nat, adjust: nat): (w: nat)
    ensures w < Range(i)
  {
    (v + Delta(i, adjust)) % Range(i)
  }

  function Relocated(image: seq<Byte>, i: Item, adjust: nat): (v: nat)
    requires Width(i) > 0 && InImage(i, |image|)
    ensures v < Range(i)
  {
    Added(i, Field(image, i.offset, Width(i)), adjust)
  }

  function Patch(image: seq<Byte>, i: Item, adjust: nat): (r: seq<Byte>)
    requires InImage(i, |image|)
    ensures |r| == |image|
  {
    if Width(i) == 0 then image else Splice(image, i.offset, Bytes(Relocated(image, i, adjust), Width(i)))
  }

  ghost predicate AllInImage(items: seq<Item>, length: nat)
  {
    forall k :: 0 <= k < |items| ==> InImage(items[k], length)
  }
  ghost predicate AllAway(items: seq<Item>, from: nat, to: nat)
  {
    forall k :: 0 <= k < |items| ==> Away(items[k], from, to)
  }

  function PatchAll(image: seq<Byte>, items: seq<Item>, adjust: nat): (r: seq<Byte>)
    requires AllInImage(items, |image|)
    ensures |r| == |image|
  {
    if items == [] then image
    else Patch(PatchAll(image, items[..|items| - 1], adjust), items[|items| - 1], adjust)
  }

  // The fixup log: the new value of each field, fields of four and eight bytes aligned.
  function Aligned(pos: nat, i: Item): nat {
    if Width(i) == 4 then (pos + 3) / 4 * 4 else if Width(i) == 8 then (pos + 7) / 8 * 8 else pos
  }

  function LogEnd(items: seq<Item>): nat {
    if items == [] then 0 else
      var last := items[|items| - 1];
      Aligned(LogEnd(items[..|items| - 1]), last) + Width(last)
  }

  /** The log takes at most a word for each entry, a word being four bytes when no field has eight. */
  lemma {:induction false} LogFits(items: seq<Item>, word: nat)
    requires word == 8 || (word == 4 && Short(items))
    ensures LogEnd(items) <= word * |items|
  {
    if items != [] {
      var n := |items| - 1;
      LogFits(items[..n], word);
      if word == 8 {
        NextFits8(LogEnd(items[..n]), items[n], n);
      } else {
        NextFits4(LogEnd(items[..n]), items[n], n);
      }
    }
  }

  lemma NextFits8(pos: nat, i: Item, n: nat)
    requires pos <= 8 * n
    ensures Aligned(pos, i) + Width(i) <= 8 * (n + 1)
  {
  }

  lemma NextFits4(pos: nat, i: Item, n: nat)
    requires pos <= 4 * n && Width(i) <= 4
    ensures Aligned(pos, i) + Width(i) <= 4 * (n + 1)
  {
  }

  lemma {:induction false} LogGrows(items: seq<Item>, n: nat)
    requires n <= |items|
    ensures LogEnd(items[..n]) <= LogEnd(items)
    decreases |items|
  {
    if n < |items| {
      LogGrows(items[..|items| - 1], n);
      assert items[..|items| - 1][..n] == items[..n];
    } else {
      assert items[..n] == items;
    }
  }

  function LogAll(log: seq<Byte>, image: seq<Byte>, items: seq<Item>, adjust: nat): (r: seq<Byte>)
    requires AllInImage(items, |image|) && LogEnd(items) <= |log|
    ensures |r| == |log|
  {
    if items == [] then log else
      var rest, last := items[..|items| - 1], items[|items| - 1];
      var before := PatchAll(image, rest, adjust);
      var sofar := LogAll(log, image, rest, adjust);
      if Width(last) == 0 then sofar
      else Splice(sofar, Aligned(LogEnd(rest), last), Bytes(Relocated(before, last, adjust), Width(last)))
  }

  // No two fields share a byte.
  predicate Clear(i: Item, j: Item) {
    || Width(i) == 0
    || Width(j) == 0
    || (i.Fixup? && j.Fixup? && (i.offset + Width(i) <= j.offset || j.offset + Width(j) <= i.offset))
  }
  ghost predicate Disjoint(items: seq<Item>) {
    forall k, l :: 0 <= k < l < |items| ==> Clear(items[k], items[l])
  }

  predicate Covers(i: Item, j: int) { i.Fixup? && i.offset <= j < i.offset + Width(i) }

  lemma PatchedByte(image: seq<Byte>, i: Item, adjust: nat, j: nat)
    requires InImage(i, |image|) && j < |image| && !Covers(i, j)
    ensures Patch(image, i, adjust)[j] == image[j]
  {
  }

  lemma PatchedField(image: seq<Byte>, i: Item, adjust: nat)
    requires InImage(i, |image|) && Width(i) > 0
    ensures Field(Patch(image, i, adjust), i.offset, Width(i)) == Relocated(image, i, adjust)
  {
    var v := Bytes(Relocated(image, i, adjust), Width(i));
    assert Patch(image, i, adjust)[i.offset..i.offset + Width(i)] == v;
    RangeIsModulus(i);
    LeOfBytes(Relocated(image, i, adjust), Width(i));
  }

  /** Every byte outside the fields is left alone. */
  lemma {:induction false} ByteKept(image: seq<Byte>, items: seq<Item>, adjust: nat, j: nat)
    requires AllInImage(items, |image|) && j < |image|
    requires forall k :: 0 <= k < |items| ==> !Covers(items[k], j)
    ensures PatchAll(image, items, adjust)[j] == image[j]
  {
    if items != [] {
      ByteKept(image, items[..|items| - 1], adjust, j);
      PatchedByte(PatchAll(image, items[..|items| - 1], adjust), items[|items| - 1], adjust, j);
    }
  }

  lemma SameField(a: seq<Byte>, b: seq<Byte>, at: nat, width: nat)
    requires at + width <= |a| == |b| && forall j :: at <= j < at + width ==> a[j] == b[j]
    ensures Field(a, at, width) == Field(b, at, width)
  {
    assert a[at..at + width] == b[at..at + width];
  }

  lemma FieldKept(image: seq<Byte>, items: seq<Item>, adjust: nat, i: Item)
    requires AllInImage(items, |image|) && InImage(i, |image|) && Width(i) > 0
    requires forall k :: 0 <= k < |items| ==> Clear(items[k], i)
    ensures Field(PatchAll(image, items, adjust), i.offset, Width(i)) == Field(image, i.offset, Width(i))
  {
    var now := PatchAll(image, items, adjust);
    forall j | i.offset <= j < i.offset + Width(i) ensures now[j] == image[j] {
      forall k | 0 <= k < |items| ensures !Covers(items[k], j) {
        assert Clear(items[k], i);
      }
      ByteKept(image, items, adjust, j);
    }
    SameField(now, image, i.offset, Width(i));
  }

  /** Fields that share no byte are each relocated exactly once. */
  lemma {:induction false} FieldRelocated(image: seq<Byte>, items: seq<Item>, adjust: nat, k: nat)
    requires AllInImage(items, |image|) && Disjoint(items) && k < |items| && Width(items[k]) > 0
    ensures Field(PatchAll(image, items, adjust), items[k].offset, Width(items[k])) ==
      Relocated(image, items[k], adjust)
    decreases |items|
  {
    var rest, last, i := items[..|items| - 1], items[|items| - 1], items[k];
    var before := PatchAll(image, rest, adjust);
    if k == |items| - 1 {
      FieldKept(image, rest, adjust, i);
      PatchedField(before, i, adjust);
    } else {
      FieldRelocated(image, rest, adjust, k);
      assert Clear(i, last);
      OtherField(before, i, last, adjust);
    }
  }

  lemma OtherField(before: seq<Byte>, i: Item, other: Item, adjust: nat)
    requires InImage(i, |before|) && InImage(other, |before|) && Clear(i, other) && Width(i) > 0
    ensures Field(Patch(before, other, adjust), i.offset, Width(i)) == Field(before, i.offset, Width(i))
  {
    var now := Patch(before, other, adjust);
    forall j | i.offset <= j < i.offset + Width(i) ensures now[j] == before[j] {
      PatchedByte(before, other, adjust, j);
    }
    SameField(now, before, i.offset, Width(i));
  }

  // The adjustment back, a UINTN
  function Negated(x64: bool, adjust: nat): nat
    requires adjust < WordRange(x64)
  {
    if adjust == 0 then 0 else WordRange(x64) - adjust
  }

  // An item that the adjustment back takes back: a high half only of multiples of 64 KB, and a field of 64 bits not
  // with words of 32, which are added without a sign.
  predicate TakesBack(x64: bool, i: Item, a: nat) {
    if !i.Fixup? then true
    else if i.kind == HIGH then a % 0x1_0000 == 0
    else if i.kind == DIR64 then x64 || a == 0
    else true
  }

  // Adding d and then e undoes itself just when together they make a whole turn.
  lemma TurnsBack(v: nat, d: nat, e: nat, m: nat)
    requires v < m && d < m && e < m
    ensures ((v + d) % m + e) % m == v <==> d + e == 0 || d + e == m
  {
    ModOnce(v + d, m);
    ModOnce((v + d) % m + e, m);
  }

  lemma HighWord(x: nat)
    ensures x % 0x1_0000_0000 / 0x1_0000 == x / 0x1_0000 % 0x1_0000
  {
  }

  // Adding there and back
  lemma DeltasCancel(x64: bool, i: Item, a: nat)
    requires 0 < a < WordRange(x64) && Width(i) > 0
    ensures Delta(i, a) < Range(i) && Delta(i, Negated(x64, a)) < Range(i)
    ensures var sum := Delta(i, a) + Delta(i, Negated(x64, a));
      sum == 0 || sum == Range(i) <==> TakesBack(x64, i, a)
  {
    if i.kind == HIGH {
      HighDeltas(x64, a);
    } else if i.kind == LOW {
      Turns(a, 0x1_0000, if x64 then 0x1_0000_0000_0000 else 0x1_0000);
    } else if i.kind == HIGHLOW {
      Turns(a, 0x1_0000_0000, if x64 then 0x1_0000_0000 else 1);
    } else {
      WideDeltas(x64, a);
    }
  }

  lemma HighDeltas(x64: bool, a: nat)
    requires 0 < a < WordRange(x64)
    ensures var sum := a % 0x1_0000_0000 / 0x1_0000 + Negated(x64, a) % 0x1_0000_0000 / 0x1_0000;
      sum == 0 || sum == 0x1_0000 <==> a % 0x1_0000 == 0
  {
    HighWord(a);
    HighWord(Negated(x64, a));
    if x64 {
      HighTurns(a, 0x1_0000, 0x1_0000_0000, 0x1_0000_0000_0000);
    } else {
      HighTurns(a, 0x1_0000, 1, 0x1_0000);
    }
  }

  lemma WideDeltas(x64: bool, a: nat)
    requires 0 < a < WordRange(x64)
    ensures a % TWO64 + Negated(x64, a) % TWO64 == WordRange(x64)
  {
  }

  lemma BackAndForth(x64: bool, i: Item, a: nat, v: nat)
    requires a < WordRange(x64) && Width(i) > 0 && v < Range(i)
    ensures Added(i, Added(i, v, a), Negated(x64, a)) == v <==> TakesBack(x64, i, a)
  {
    if a > 0 {
      DeltasCancel(x64, i, a);
    }
    TurnsBack(v, Delta(i, a), Delta(i, Negated(x64, a)), Range(i));
  }

  lemma SameSlice(a: seq<Byte>, b: seq<Byte>, at: nat, width: nat)
    requires at + width <= |a| == |b|
    ensures Field(a, at, width) == Field(b, at, width) <==> a[at..at + width] == b[at..at + width]
  {
    BytesOfLe(a[at..at + width]);
    BytesOfLe(b[at..at + width]);
  }

  // There is a field of this kind.
  ghost predicate HasKind(items: seq<Item>, kind: nat) {
    exists k :: 0 <= k < |items| && items[k].Fixup? && items[k].kind == kind
  }

  // No field holds just the high half of an address, or the adjustment is a multiple of 64 KB; and none has 64 bits
  // where words have 32, or the adjustment is zero.
  ghost predicate Reversible(x64: bool, items: seq<Item>, a: nat) {
    (!HasKind(items, HIGH) || a % 0x1_0000 == 0) && (x64 || !HasKind(items, DIR64) || a == 0)
  }

  function Rebased(x64: bool, image: seq<Byte>, items: seq<Item>, a: nat): (r: seq<Byte>)
    requires AllInImage(items, |image|) && a < WordRange(x64)
    ensures |r| == |image|
  {
    PatchAll(PatchAll(image, items, a), items, Negated(x64, a))
  }

  lemma RebasedField(x64: bool, image: seq<Byte>, items: seq<Item>, a: nat, k: nat)
    requires AllInImage(items, |image|) && Disjoint(items) && a < WordRange(x64) && k < |items|
    requires Width(items[k]) > 0
    ensures var i := items[k];
      Rebased(x64, image, items, a)[i.offset..i.offset + Width(i)] == image[i.offset..i.offset + Width(i)]
      <==> TakesBack(x64, i, a)
  {
    var i := items[k];
    FieldTwice(x64, image, items, a, k);
    SameSlice(Rebased(x64, image, items, a), image, i.offset, Width(i));
  }

  lemma FieldTwice(x64: bool, image: seq<Byte>, items: seq<Item>, a: nat, k: nat)
    requires AllInImage(items, |image|) && Disjoint(items) && a < WordRange(x64) && k < |items|
    requires Width(items[k]) > 0
    ensures var i := items[k];
      Field(Rebased(x64, image, items, a), i.offset, Width(i)) == Field(image, i.offset, Width(i))
      <==> TakesBack(x64, i, a)
  {
    var i := items[k];
    var f := Field(image, i.offset, Width(i));
    FieldInRange(image, i);
    FieldMoved(image, items, a, k, f);
    FieldMoved(PatchAll(image, items, a), items, Negated(x64, a), k, Added(i, f, a));
    BackAndForth(x64, i, a, f);
  }

  lemma FieldMoved(image: seq<Byte>, items: seq<Item>, adjust: nat, k: nat, f: nat)
    requires AllInImage(items, |image|) && Disjoint(items) && k < |items| && Width(items[k]) > 0
    requires Field(image, items[k].offset, Width(items[k])) == f
    ensures Field(PatchAll(image, items, adjust), items[k].offset, Width(items[k])) == Added(items[k], f, adjust)
  {
    FieldRelocated(image, items, adjust, k);
  }

  lemma FieldInRange(image: seq<Byte>, i: Item)
    requires InImage(i, |image|) && Width(i) > 0
    ensures Field(image, i.offset, Width(i)) < Range(i)
  {
    BytesOfLe(image[i.offset..i.offset + Width(i)]);
    RangeIsModulus(i);
  }

  /**
   * Relocating by an adjustment and then by its negation restores the image if and only if no field holds just the
   * high half of an address, or the adjustment is a multiple of 64 KB, and, where words have 32 bits, no field has 64.
   */
  lemma RestoresIff(x64: bool, image: seq<Byte>, items: seq<Item>, a: nat)
    requires AllInImage(items, |image|) && Disjoint(items) && a < WordRange(x64)
    ensures Rebased(x64, image, items, a) == image <==> Reversible(x64, items, a)
  {
    var back := Rebased(x64, image, items, a);
    if k :| 0 <= k < |items| && !TakesBack(x64, items[k], a) {
      RebasedField(x64, image, items, a, k);
      assert HasKind(items, items[k].kind);
    } else {
      forall j | 0 <= j < |image| ensures back[j] == image[j] {
        ByteRestored(x64, image, items, a, j);
      }
      AllTakenBack(x64, items, a);
    }
  }

  lemma ByteRestored(x64: bool, image: seq<Byte>, items: seq<Item>, a: nat, j: nat)
    requires AllInImage(items, |image|) && Disjoint(items) && a < WordRange(x64) && j < |image|
    requires forall k :: 0 <= k < |items| ==> TakesBack(x64, items[k], a)
    ensures Rebased(x64, image, items, a)[j] == image[j]
  {
    if k :| 0 <= k < |items| && Covers(items[k], j) {
      RebasedField(x64, image, items, a, k);
      var i := items[k];
      assert Rebased(x64, image, items, a)[i.offset..i.offset + Width(i)][j - i.offset] ==
        image[i.offset..i.offset + Width(i)][j - i.offset];
    } else {
      ByteKept(image, items, a, j);
      ByteKept(PatchAll(image, items, a), items, Negated(x64, a), j);
    }
  }

  lemma AllTakenBack(x64: bool, items: seq<Item>, a: nat)
    requires forall k :: 0 <= k < |items| ==> TakesBack(x64, items[k], a)
    ensures Reversible(x64, items, a)
  {
    if k :| 0 <= k < |items| && items[k].Fixup? && items[k].kind == HIGH {
      assert TakesBack(x64, items[k], a);
    }
    if k :| 0 <= k < |items| && items[k].Fixup? && items[k].kind == DIR64 {
      assert TakesBack(x64, items[k], a);
    }
  }

  // The entries from `at` on, of two bytes each, of a block for the page at va.
  function Entries(image: seq<Byte>, at: nat, end: nat, va: nat): seq<Item>
    requires end < |image|
    decreases end - at
  {
    if at >= end then []
    else
      var reloc := Field(image, at, 2);
      [Fixup(reloc / 0x1000, va + reloc % 0x1000)] + Entries(image, at + 2, end, va)
  }

  // The blocks of the directory fit into it, up to one that the loader does not get past.
  ghost predicate Tiled(image: seq<Byte>, at: nat, end: nat)
    requires end < |image|
    decreases end - at
  {
    at < end ==>
      && at + 8 <= end
      && var size := Field(image, at + 4, 4);
         size == 0 || at + size >= |image| || (at + size <= end && Tiled(image, at + size, end))
  }

  // What the directory asks for, block by block.
  function Items(image: seq<Byte>, at: nat, end: nat): seq<Item>
    requires end < |image| && Tiled(image, at, end)
    decreases end - at
  {
    if at >= end then []
    else
      var va, size := Field(image, at, 4), Field(image, at + 4, 4);
      if at + size >= |image| then [PastImage]
      else if size == 0 then [Stuck]
      else Entries(image, at + 8, at + size, va) + Items(image, at + size, end)
  }

  lemma {:induction false} EntriesCount(image: seq<Byte>, at: nat, end: nat, va: nat)
    requires end < |image|
    ensures at <= end ==> 2 * |Entries(image, at, end, va)| <= end - at + 1
    ensures at >= end ==> Entries(image, at, end, va) == []
    decreases end - at
  {
    if at < end {
      EntriesCount(image, at + 2, end, va);
    }
  }

  /** There is at most one entry to two bytes of the directory. */
  lemma {:induction false} ItemsCount(image: seq<Byte>, at: nat, end: nat)
    requires end < |image| && Tiled(image, at, end)
    ensures at <= end ==> 2 * |Items(image, at, end)| <= end - at
    ensures at >= end ==> Items(image, at, end) == []
    decreases end - at
  {
    if at < end {
      var va, size := Field(image, at, 4), Field(image, at + 4, 4);
      ItemsOf(image, at, end, va, size);
      if at + size < |image| && size != 0 {
        EntriesCount(image, at + 8, at + size, va);
        ItemsCount(image, at + size, end);
      }
    }
  }

  lemma {:induction false} SameEntries(image: seq<Byte>, other: seq<Byte>, at: nat, end: nat, va: nat)
    requires end < |image| == |other| && forall j :: at <= j <= end ==> image[j] == other[j]
    ensures Entries(image, at, end, va) == Entries(other, at, end, va)
    decreases end - at
  {
    if at < end {
      SameField(image, other, at, 2);
      SameEntries(image, other, at + 2, end, va);
    }
  }

  lemma SameHeader(image: seq<Byte>, other: seq<Byte>, at: nat) returns (va: nat, size: nat)
    requires at + 8 <= |image| == |other| && forall j :: at <= j < at + 8 ==> image[j] == other[j]
    ensures Field(image, at, 4) == Field(other, at, 4) == va
    ensures Field(image, at + 4, 4) == Field(other, at + 4, 4) == size
  {
    SameField(image, other, at, 4);
    SameField(image, other, at + 4, 4);
    va, size := Field(image, at, 4), Field(image, at + 4, 4);
  }

  lemma ItemsOf(image: seq<Byte>, at: nat, end: nat, va: nat, size: nat)
    requires end < |image| && Tiled(image, at, end) && at < end
    requires va == Field(image, at, 4) && size == Field(image, at + 4, 4)
    ensures if at + size >= |image| then Items(image, at, end) == [PastImage]
            else if size == 0 then Items(image, at, end) == [Stuck]
            else Tiled(image, at + size, end)
                 && Items(image, at, end) == Entries(image, at + 8, at + size, va) + Items(image, at + size, end)
  {
  }

  lemma TiledOf(image: seq<Byte>, at: nat, end: nat, size: nat)
    requires end < |image| && at < end && at + 8 <= end && size == Field(image, at + 4, 4)
    requires size == 0 || at + size >= |image| || (at + size <= end && Tiled(image, at + size, end))
    ensures Tiled(image, at, end)
  {
  }

  /** The directory says the same in an image that differs only outside it. */
  lemma {:induction false} SameItems(image: seq<Byte>, other: seq<Byte>, at: nat, end: nat)
    requires end < |image| == |other| && Tiled(image, at, end) && forall j :: at <= j <= end ==> image[j] == other[j]
    ensures Tiled(other, at, end) && Items(image, at, end) == Items(other, at, end)
    decreases end - at
  {
    if at < end {
      var va, size := SameHeader(image, other, at);
      ItemsOf(image, at, end, va, size);
      if at + size < |image| && size != 0 {
        SameEntries(image, other, at + 8, at + size, va);
        SameItems(image, other, at + size, end);
      }
      TiledOf(other, at, end, size);
      ItemsOf(other, at, end, va, size);
    }
  }

  lemma DirectoryKept(image: seq<Byte>, items: seq<Item>, adjust: nat, from: nat, to: nat)
    requires AllInImage(items, |image|) && AllAway(items, from, to) && to <= |image|
    ensures forall j :: from <= j < to ==> PatchAll(image, items, adjust)[j] == image[j]
  {
    forall j | from <= j < to ensures PatchAll(image, items, adjust)[j] == image[j] {
      forall k | 0 <= k < |items| ensures !Covers(items[k], j) {
        assert Away(items[k], from, to);
      }
      ByteKept(image, items, adjust, j);
    }
  }

  /** A whole image relocated and relocated back, the directory read anew from the relocated image. */
  lemma RelocateBackIff(x64: bool, image: seq<Byte>, at: nat, end: nat, a: nat)
    requires end < |image| && Tiled(image, at, end) && a < WordRange(x64)
    requires var items := Items(image, at, end);
      AllInImage(items, |image|) && AllAway(items, at, end + 1) && Disjoint(items)
    ensures var there := PatchAll(image, Items(image, at, end), a);
      && Tiled(there, at, end) && Items(there, at, end) == Items(image, at, end)
      && (PatchAll(there, Items(there, at, end), Negated(x64, a)) == image <==>
          Reversible(x64, Items(image, at, end), a))
  {
    var items := Items(image, at, end);
    DirectoryKept(image, items, a, at, end + 1);
    SameItems(image, PatchAll(image, items, a), at, end);
    RestoresIff(x64, image, items, a);
  }

  // How many items are carried out.
  function Good(items: seq<Item>): (n: nat)
    ensures n <= |items| && (forall k :: 0 <= k < n ==> Known(items[k])) && (n < |items| ==> !Known(items[n]))
  {
    if items == [] || !Known(items[0]) then 0 else 1 + Good(items[1..])
  }

  datatype Outcome = Done | LoadError | Hang | OutOfResources

  function Verdict(items: seq<Item>): Outcome {
    if Good(items) == |items| then Done else if items[Good(items)] == PastImage then LoadError else Hang
  }

  // Where the log has entry k.
  function LogAt(items: seq<Item>, k: nat): nat
    requires k < |items|
  {
    Aligned(LogEnd(items[..k]), items[k])
  }

  lemma {:induction false} LogAtInside(items: seq<Item>, k: nat)
    requires k < |items|
    ensures LogAt(items, k) + Width(items[k]) <= LogEnd(items)
  {
    assert items[..k + 1][..k] == items[..k];
    LogGrows(items, k + 1);
  }

  /** The log holds, entry by entry, what the relocated image holds in each field. */
  lemma {:induction false} LogHolds(log: seq<Byte>, image: seq<Byte>, items: seq<Item>, adjust: nat, k: nat)
    requires AllInImage(items, |image|) && Disjoint(items) && LogEnd(items) <= |log| && k < |items|
    requires Width(items[k]) > 0
    ensures LogAt(items, k) + Width(items[k]) <= |log|
    ensures Field(LogAll(log, image, items, adjust), LogAt(items, k), Width(items[k]))
         == Field(PatchAll(image, items, adjust), items[k].offset, Width(items[k]))
    decreases |items|
  {
    LogAtInside(items, k);
    if k == |items| - 1 {
      LogHoldsLast(log, image, items, adjust);
    } else {
      var rest := items[..|items| - 1];
      assert rest[..k] == items[..k];
      LogAtInside(rest, k);
      LogHolds(log, image, rest, adjust, k);
      PatchedBefore(image, items, rest, adjust, k);
      LogEntryKept(log, image, items, rest, adjust, LogAt(items, k), Width(items[k]));
    }
  }

  lemma PatchedBefore(image: seq<Byte>, items: seq<Item>, rest: seq<Item>, adjust: nat, k: nat)
    requires AllInImage(items, |image|) && Disjoint(items) && k < |rest| && |items| == |rest| + 1
    requires rest == items[..|rest|] && Width(items[k]) > 0
    ensures items[k] == rest[k] && AllInImage(rest, |image|)
    ensures Field(PatchAll(image, items, adjust), rest[k].offset, Width(rest[k]))
         == Field(PatchAll(image, rest, adjust), rest[k].offset, Width(rest[k]))
  {
    FieldRelocated(image, items, adjust, k);
    FieldRelocated(image, rest, adjust, k);
  }

  lemma LogHoldsLast(log: seq<Byte>, image: seq<Byte>, items: seq<Item>, adjust: nat)
    requires AllInImage(items, |image|) && Disjoint(items) && LogEnd(items) <= |log| && items != []
    requires Width(items[|items| - 1]) > 0
    ensures var i := items[|items| - 1];
      && LogAt(items, |items| - 1) + Width(i) <= |log|
      && Field(LogAll(log, image, items, adjust), LogAt(items, |items| - 1), Width(i))
         == Field(PatchAll(image, items, adjust), i.offset, Width(i))
  {
    var rest, i := items[..|items| - 1], items[|items| - 1];
    assert rest + [i] == items;
    LoggedLast(log, image, rest, i, adjust);
    FieldRelocated(image, items, adjust, |items| - 1);
    FieldKept(image, rest, adjust, i);
  }

  lemma LogKept(log: seq<Byte>, image: seq<Byte>, items: seq<Item>, rest: seq<Item>, adjust: nat)
    requires AllInImage(items, |image|) && LogEnd(items) <= |log| && |items| == |rest| + 1
    requires rest == items[..|rest|]
    ensures LogEnd(rest) <= LogEnd(items) && AllInImage(rest, |image|)
    ensures forall j :: 0 <= j < LogEnd(rest) ==>
      LogAll(log, image, items, adjust)[j] == LogAll(log, image, rest, adjust)[j]
  {
  }

  lemma LogEntryKept(log: seq<Byte>, image: seq<Byte>, items: seq<Item>, rest: seq<Item>, adjust: nat, p: nat,
                     width: nat)
    requires AllInImage(items, |image|) && LogEnd(items) <= |log| && |items| == |rest| + 1
    requires rest == items[..|rest|] && p + width <= LogEnd(rest)
    ensures LogEnd(rest) <= LogEnd(items) && AllInImage(rest, |image|)
    ensures Field(LogAll(log, image, items, adjust), p, width) == Field(LogAll(log, image, rest, adjust), p, width)
  {
    LogKept(log, image, items, rest, adjust);
    var now, before := LogAll(log, image, items, adjust), LogAll(log, image, rest, adjust);
    SameField(now, before, p, width);
  }

  lemma LoggedLast(log: seq<Byte>, image: seq<Byte>, rest: seq<Item>, i: Item, adjust: nat)
    requires AllInImage(rest + [i], |image|) && LogEnd(rest + [i]) <= |log| && Width(i) > 0
    ensures (rest + [i])[..|rest|] == rest && AllInImage(rest, |image|)
    ensures LogEnd(rest + [i]) == Aligned(LogEnd(rest), i) + Width(i)
    ensures Field(LogAll(log, image, rest + [i], adjust), Aligned(LogEnd(rest), i), Width(i))
         == Relocated(PatchAll(image, rest, adjust), i, adjust)
  {
    var items := rest + [i];
    assert items[..|items| - 1] == rest;
    forall k | 0 <= k < |rest| ensures InImage(rest[k], |image|) {
      assert InImage(items[k], |image|);
    }
    var v := Relocated(PatchAll(image, rest, adjust), i, adjust);
    var p := Aligned(LogEnd(rest), i);
    assert LogAll(log, image, items, adjust)[p..p + Width(i)] == Bytes(v, Width(i));
    RangeIsModulus(i);
    LeOfBytes(v, Width(i));
  }

  // A relocation run: the image and log it starts with, what the directory asks for, and the adjustment.
  datatype Run = Run(image: seq<Byte>, log: seq<Byte>, items: seq<Item>, adjust: nat)

  ghost predicate Feasible(r: Run) {
    AllInImage(r.items, |r.image|) && Roomy(r.items, |r.items|, |r.log|)
  }

  // A log with a word for each of n entries, words of eight bytes, or of four where no field is longer
  ghost predicate Roomy(items: seq<Item>, n: nat, length: nat) {
    8 * n <= length || (4 * n <= length && Short(items))
  }

  ghost predicate Short(items: seq<Item>) { forall k :: 0 <= k < |items| ==> Width(items[k]) <= 4 }

  // The loader's state after the first n items.
  ghost predicate After(r: Run, n: nat, image: seq<Byte>, log: seq<Byte>, pos: nat)
    requires Feasible(r)
  {
    && n <= Good(r.items)
    && pos == LogEnd(r.items[..n]) <= |r.log|
    && image == PatchAll(r.image, r.items[..n], r.adjust)
    && log == LogAll(r.log, r.image, r.items[..n], r.adjust)
  }

  lemma LogRoom(items: seq<Item>, n: nat, length: nat)
    requires n <= |items| && Roomy(items, |items|, length)
    ensures LogEnd(items[..n]) <= length
  {
    LogFits(items[..n], if 8 * |items| <= length then 8 else 4);
  }

  lemma AfterNone(r: Run)
    requires Feasible(r)
    ensures After(r, 0, r.image, r.log, 0)
  {
    assert r.items[..0] == [];
  }

  lemma AfterOneMore(image0: seq<Byte>, log0: seq<Byte>, done: seq<Item>, i: Item, adjust: nat)
    requires AllInImage(done, |image0|) && InImage(i, |image0|) && LogEnd(done + [i]) <= |log0|
    requires LogEnd(done) <= |log0|
    ensures AllInImage(done + [i], |image0|)
    ensures LogEnd(done + [i]) == Aligned(LogEnd(done), i) + Width(i)
    ensures PatchAll(image0, done + [i], adjust) == Patch(PatchAll(image0, done, adjust), i, adjust)
    ensures LogAll(log0, image0, done + [i], adjust) ==
      if Width(i) == 0 then LogAll(log0, image0, done, adjust)
      else Splice(LogAll(log0, image0, done, adjust), Aligned(LogEnd(done), i),
                  Bytes(Relocated(PatchAll(image0, done, adjust), i, adjust), Width(i)))
  {
    var items := done + [i];
    assert items[..|items| - 1] == done;
  }

  // Stores the low `width` bytes of v.
  method Store(a: array<Byte>, at: nat, width: nat, v: nat)
    requires at + width <= a.Length
    modifies a
    ensures a[..] == Splice(old(a[..]), at, Bytes(v, width))
  {
    var k, rest := 0, v;
    ghost var bytes := Bytes(v, width);
    while k < width
      invariant 0 <= k <= width && bytes[k..] == Bytes(rest, width - k)
      invariant forall j :: 0 <= j < a.Length ==> a[j] == if at <= j < at + k then bytes[j - at] else old(a[j])
    {
      assert bytes[k] == bytes[k..][0] && bytes[k + 1..] == bytes[k..][1..];
      a[at + k] := rest % 256;
      k, rest := k + 1, rest / 256;
    }
    SpliceAt(old(a[..]), a[..], at, bytes);
  }

  // One field: read, adjusted and written back, and its new value logged.
  method AdjustField(image: array<Byte>, log: array<Byte>, fixup: nat, fixupData: nat, width: nat, delta: nat,
                     range: nat,
                     ghost i: Item, ghost adjust: nat)
    requires image != log && fixup + width <= image.Length && fixupData + width <= log.Length
    requires i.Fixup? && i.offset == fixup && 0 < width == Width(i) && delta == Delta(i, adjust) && range == Range(i)
    modifies image, log
    ensures image[..] == Patch(old(image[..]), i, adjust)
    ensures log[..] == Splice(old(log[..]), fixupData, Bytes(Relocated(old(image[..]), i, adjust), width))
  {
    assert image[fixup..fixup + width] == image[..][fixup..fixup + width];
    var v := (Le(image[fixup..fixup + width]) + delta) % range;
    Store(image, fixup, width, v);
    Store(log, fixupData, width, v);
  }

  // What carrying out an item does to the image and the log.
  ghost predicate CarriedOut(i: Item, adjust: nat, image: seq<Byte>, log: seq<Byte>, pos: nat,
                             image': seq<Byte>, log': seq<Byte>, pos': nat)
    requires InImage(i, |image|) && Aligned(pos, i) + Width(i) <= |log|
  {
    && image' == Patch(image, i, adjust)
    && pos' == Aligned(pos, i) + Width(i)
    && log' == if Width(i) == 0 then log else Splice(log, Aligned(pos, i), Bytes(Relocated(image, i, adjust), Width(i)))
  }

  // One entry of a block
  method RelocateOne(image: array<Byte>, log: array<Byte>, kind: nat, fixup: nat, fixupData: nat, adjust: nat,
                     ghost i: Item)
    returns (ok: bool, next: nat)
    requires image != log && i == Fixup(kind, fixup) && InImage(i, image.Length)
    requires Aligned(fixupData, i) + Width(i) <= log.Length
    modifies image, log
    ensures ok == Known(i)
    ensures CarriedOut(i, adjust, old(image[..]), old(log[..]), fixupData, image[..], log[..], next)
  {
    ok, next := true, fixupData;
    if kind == ABSOLUTE {
    } else if kind == HIGH {
      AdjustField(image, log, fixup, next, 2, adjust % 0x1_0000_0000 / 0x1_0000, 0x1_0000, i, adjust);
      next := next + 2;
    } else if kind == LOW {
      AdjustField(image, log, fixup, next, 2, adjust % 0x1_0000, 0x1_0000, i, adjust);
      next := next + 2;
    } else if kind == HIGHLOW {
      next := (next + 3) / 4 * 4;
      AdjustField(image, log, fixup, next, 4, adjust % 0x1_0000_0000, 0x1_0000_0000, i, adjust);
      next := next + 4;
    } else if kind == DIR64 {
      next := (next + 7) / 8 * 8;
      AdjustField(image, log, fixup, next, 8, adjust % 0x1_0000_0000_0000_0000, 0x1_0000_0000_0000_0000, i, adjust);
      next := next + 8;
    } else {
      ok := false;
    }
  }

  // The next item of a run
  method RelocateNext(image: array<Byte>, log: array<Byte>, kind: nat, fixup: nat, fixupData: nat, adjust: nat,
                      ghost r: Run, ghost n: nat)
    returns (ok: bool, next: nat)
    requires image != log && Feasible(r) && After(r, n, image[..], log[..], fixupData)
    requires n < |r.items| && r.items[n] == Fixup(kind, fixup) && adjust == r.adjust
    modifies image, log
    ensures ok <==> n < Good(r.items)
    ensures After(r, if ok then n + 1 else n, image[..], log[..], next)
  {
    ghost var done, i := r.items[..n], r.items[n];
    assert done + [i] == r.items[..n + 1];
    LogRoom(r.items, n, |r.log|);
    LogRoom(r.items, n + 1, |r.log|);
    AfterOneMore(r.image, r.log, done, i, r.adjust);
    KnownNext(r.items, n);
    ok, next := RelocateOne(image, log, kind, fixup, fixupData, adjust, i);
  }

  lemma {:induction false} KnownNext(items: seq<Item>, n: nat)
    requires n < |items| && n <= Good(items)
    ensures n < Good(items) <==> Known(items[n])
  {
  }

  // What is read of the directory is as it was.
  lemma ReadAfter(r: Run, n: nat, image: seq<Byte>, log: seq<Byte>, pos: nat, from: nat, to: nat, at: nat, width: nat)
    requires Feasible(r) && After(r, n, image, log, pos) && AllAway(r.items, from, to) && to <= |r.image|
    requires from <= at && at + width <= to
    ensures |image| == |r.image| && Field(image, at, width) == Field(r.image, at, width)
  {
    DirectoryKept(r.image, r.items[..n], r.adjust, from, to);
    SameField(image, r.image, at, width);
  }

  /** One block: its entries are carried out in turn until one is not known. */
  method RelocateBlock(image: array<Byte>, log: array<Byte>, start: nat, relocEnd: nat, fixupBase: nat, fixupData: nat,
                       adjust: nat, ghost from: nat, ghost r: Run, ghost n0: nat)
    returns (ok: bool, next: nat, ghost n: nat)
    requires image != log && Feasible(r) && After(r, n0, image[..], log[..], fixupData) && adjust == r.adjust
    requires from <= start && relocEnd < |r.image| && AllAway(r.items, from, relocEnd + 1)
    requires var entries := Entries(r.image, start, relocEnd, fixupBase); entries <= r.items[n0..]
    modifies image, log
    ensures After(r, n, image[..], log[..], next)
    ensures ok ==> n == n0 + |Entries(r.image, start, relocEnd, fixupBase)|
    ensures !ok ==> n == Good(r.items) < |r.items| && r.items[n].Fixup?
  {
    var reloc := start;
    next, n := fixupData, n0;
    while reloc < relocEnd
      invariant start <= reloc
      invariant After(r, n, image[..], log[..], next)
      invariant Entries(r.image, reloc, relocEnd, fixupBase) <= r.items[n..]
      invariant n + |Entries(r.image, reloc, relocEnd, fixupBase)| ==
        n0 + |Entries(r.image, start, relocEnd, fixupBase)|
      decreases relocEnd - reloc
    {
      ok, next := RelocateEntry(image, log, reloc, relocEnd, fixupBase, next, adjust, from, r, n);
      if !ok {
        return;
      }
      n, reloc := n + 1, reloc + 2;
    }
    ok := true;
  }

  method RelocateEntry(image: array<Byte>, log: array<Byte>, reloc: nat, ghost relocEnd: nat, fixupBase: nat,
                       fixupData: nat,
                       adjust: nat, ghost from: nat, ghost r: Run, ghost n: nat)
    returns (ok: bool, next: nat)
    requires image != log && Feasible(r) && After(r, n, image[..], log[..], fixupData) && adjust == r.adjust
    requires from <= reloc < relocEnd < |r.image| && AllAway(r.items, from, relocEnd + 1)
    requires Entries(r.image, reloc, relocEnd, fixupBase) <= r.items[n..]
    modifies image, log
    ensures After(r, if ok then n + 1 else n, image[..], log[..], next)
    ensures ok ==> n < |r.items| && Entries(r.image, reloc + 2, relocEnd, fixupBase) <= r.items[n + 1..]
    ensures |Entries(r.image, reloc, relocEnd, fixupBase)| == 1 + |Entries(r.image, reloc + 2, relocEnd, fixupBase)|
    ensures !ok ==> n == Good(r.items) < |r.items| && r.items[n].Fixup?
  {
    ReadAfter(r, n, image[..], log[..], fixupData, from, relocEnd + 1, reloc, 2);
    var entry := U16(image, reloc);
    assert r.items[n] == r.items[n..][0] == Entries(r.image, reloc, relocEnd, fixupBase)[0];
    NextEntries(r, n, reloc, relocEnd, fixupBase);
    ok, next := RelocateNext(image, log, entry / 0x1000, fixupBase + entry % 0x1000, fixupData, adjust, r, n);
  }

  lemma NextEntries(r: Run, n: nat, at: nat, end: nat, va: nat)
    requires at < end < |r.image| && n < |r.items| && Entries(r.image, at, end, va) <= r.items[n..]
    ensures Entries(r.image, at + 2, end, va) <= r.items[n + 1..]
    ensures |Entries(r.image, at, end, va)| == 1 + |Entries(r.image, at + 2, end, va)|
  {
    assert Entries(r.image, at, end, va)[1..] == Entries(r.image, at + 2, end, va);
    assert r.items[n..][1..] == r.items[n + 1..];
  }

  method U16(image: array<Byte>, at: nat) returns (v: nat)
    requires at + 2 <= image.Length
    ensures v == Field(image[..], at, 2)
  {
    assert image[at..at + 2] == image[..][at..at + 2];
    v := Le(image[at..at + 2]);
  }

  method U32(image: array<Byte>, at: nat) returns (v: nat)
    requires at + 4 <= image.Length
    ensures v == Field(image[..], at, 4)
  {
    assert image[at..at + 4] == image[..][at..at + 4];
    v := Le(image[at..at + 4]);
  }

  /**
   * EfiLdrPeCoffLoadPeRelocate: `at` and `size` are the directory's address and length, the log is null when no
   * memory was found for it.  The image ends up as if the directory had been read before anything was changed.
   */
  method Relocate(image: array<Byte>, log: array?<Byte>, at: nat, size: nat, adjust: nat) returns (outcome: Outcome)
    requires at < 0x1_0000_0000 && size < 0x1_0000_0000 && image != log
    requires Inside(at, size, image.Length) && log != null ==>
      && Tiled(image[..], at, DirectoryEnd(at, size))
      && AllInImage(Items(image[..], at, DirectoryEnd(at, size)), image.Length)
      && AllAway(Items(image[..], at, DirectoryEnd(at, size)), at, DirectoryEnd(at, size) + 1)
      && Roomy(Items(image[..], at, DirectoryEnd(at, size)), size / 2, log.Length)
    modifies image, if log == null then {} else {log}
    ensures !Inside(at, size, image.Length) ==> outcome == LoadError
    ensures Inside(at, size, image.Length) && log == null ==> outcome == OutOfResources
    ensures !Inside(at, size, image.Length) || log == null ==> image[..] == old(image[..])
    ensures Inside(at, size, image.Length) && log != null ==>
      var items := Items(old(image[..]), at, DirectoryEnd(at, size));
      && Feasible(Run(old(image[..]), old(log[..]), items, adjust))
      && outcome == Verdict(items)
      && image[..] == PatchAll(old(image[..]), items[..Good(items)], adjust)
      && LogEnd(items[..Good(items)]) <= |old(log[..])|
      && log[..] == LogAll(old(log[..]), old(image[..]), items[..Good(items)], adjust)
  {
    var relocBaseEnd := (at + size) % 0x1_0000_0000;
    if at >= image.Length || relocBaseEnd >= image.Length {
      return LoadError;
    }
    if log == null {
      return OutOfResources;
    }
    outcome := RunDirectory(image, log, at, relocBaseEnd, adjust);
  }

  function DirectoryEnd(at: nat, size: nat): nat { (at + size) % 0x1_0000_0000 }
  predicate Inside(at: nat, size: nat, length: nat) { at < length && DirectoryEnd(at, size) < length }

  // The blocks of the directory
  method RunDirectory(image: array<Byte>, log: array<Byte>, start: nat, end: nat, adjust: nat)
    returns (outcome: Outcome)
    requires image != log && end < image.Length && Tiled(image[..], start, end)
    requires AllInImage(Items(image[..], start, end), image.Length)
    requires AllAway(Items(image[..], start, end), start, end + 1)
    requires start <= end ==> Roomy(Items(image[..], start, end), (end - start) / 2, log.Length)
    modifies image, log
    ensures var items := Items(old(image[..]), start, end);
      && Feasible(Run(old(image[..]), old(log[..]), items, adjust))
      && outcome == Verdict(items)
      && image[..] == PatchAll(old(image[..]), items[..Good(items)], adjust)
      && LogEnd(items[..Good(items)]) <= |old(log[..])|
      && log[..] == LogAll(old(log[..]), old(image[..]), items[..Good(items)], adjust)
  {
    ghost var r := Run(image[..], log[..], Items(image[..], start, end), adjust);
    ItemsCount(image[..], start, end);
    AfterNone(r);
    var relocBase, fixupData := start, 0;
    ghost var n: nat := 0;
    while relocBase < end
      invariant start <= relocBase && AtBlock(r, n, relocBase, end) && After(r, n, image[..], log[..], fixupData)
      decreases end - relocBase
    {
      outcome, relocBase, fixupData, n := NextBlock(image, log, relocBase, end, fixupData, adjust, start, r, n);
      if outcome != Done {
        return;
      }
    }
    AllDone(r, n, relocBase, end);
    outcome := Done;
  }

  lemma AllDone(r: Run, n: nat, at: nat, end: nat)
    requires AtBlock(r, n, at, end) && at >= end && n <= Good(r.items)
    ensures n == Good(r.items) == |r.items| && Verdict(r.items) == Done
  {
    assert |r.items[n..]| == 0;
  }

  // The items left are those of the blocks from `at` on.
  ghost predicate AtBlock(r: Run, n: nat, at: nat, end: nat) {
    end < |r.image| && Tiled(r.image, at, end) && n <= |r.items| && r.items[n..] == Items(r.image, at, end)
  }

  method NextBlock(image: array<Byte>, log: array<Byte>, relocBase: nat, end: nat, fixupData: nat, adjust: nat,
                   ghost start: nat, ghost r: Run, ghost n: nat)
    returns (outcome: Outcome, relocEnd: nat, data: nat, ghost m: nat)
    requires image != log && start <= relocBase < end && Feasible(r) && adjust == r.adjust
    requires AtBlock(r, n, relocBase, end) && After(r, n, image[..], log[..], fixupData)
    requires AllAway(r.items, start, end + 1)
    modifies image, log
    ensures After(r, m, image[..], log[..], data)
    ensures outcome == Done ==> relocEnd > relocBase && AtBlock(r, m, relocEnd, end)
    ensures outcome != Done ==> m == Good(r.items) && outcome == Verdict(r.items)
  {
    var va, sizeOfBlock := ReadHeader(image, relocBase, log[..], fixupData, start, end, r, n);
    relocEnd, data, m := relocBase + sizeOfBlock, fixupData, n;
    if relocEnd >= image.Length {
      BlockStops(r, n, relocBase, end, va, sizeOfBlock);
      outcome := LoadError;
    } else if sizeOfBlock == 0 {
      BlockStops(r, n, relocBase, end, va, sizeOfBlock);
      outcome := Hang;
    } else {
      BlockDone(r, n, relocBase, end, va, relocEnd);
      AwayFromBlock(r.items, start, end + 1, relocEnd + 1);
      var ok;
      ok, data, m := RelocateBlock(image, log, relocBase + 8, relocEnd, va, fixupData, adjust, start, r, n);
      outcome := if ok then Done else Hang;
    }
  }

  // A block that the loader does not get past
  lemma BlockStops(r: Run, n: nat, at: nat, end: nat, va: nat, size: nat)
    requires AtBlock(r, n, at, end) && at < end && n <= Good(r.items)
    requires va == Field(r.image, at, 4) && size == Field(r.image, at + 4, 4) && (at + size >= |r.image| || size == 0)
    ensures n == Good(r.items) && Verdict(r.items) == if at + size >= |r.image| then LoadError else Hang
  {
    ItemsOf(r.image, at, end, va, size);
    assert r.items[n] == r.items[n..][0];
  }

  // VirtualAddress and SizeOfBlock
  method ReadHeader(image: array<Byte>, relocBase: nat, ghost log: seq<Byte>, ghost pos: nat, ghost start: nat,
                    ghost end: nat, ghost r: Run, ghost n: nat)
    returns (va: nat, sizeOfBlock: nat)
    requires Feasible(r) && After(r, n, image[..], log, pos) && AllAway(r.items, start, end + 1)
    requires AtBlock(r, n, relocBase, end) && start <= relocBase < end
    ensures va == Field(r.image, relocBase, 4) && sizeOfBlock == Field(r.image, relocBase + 4, 4)
  {
    ReadAfter(r, n, image[..], log, pos, start, end + 1, relocBase, 4);
    ReadAfter(r, n, image[..], log, pos, start, end + 1, relocBase + 4, 4);
    va := U32(image, relocBase);
    sizeOfBlock := U32(image, relocBase + 4);
  }

  lemma AwayFromBlock(items: seq<Item>, from: nat, to: nat, less: nat)
    requires AllAway(items, from, to) && less <= to
    ensures AllAway(items, from, less)
  {
    forall k | 0 <= k < |items| ensures Away(items[k], from, less) {
      assert Away(items[k], from, to);
    }
  }

  lemma BlockDone(r: Run, n: nat, at: nat, end: nat, va: nat, next: nat)
    requires AtBlock(r, n, at, end) && at < next < |r.image| && at < end
    requires va == Field(r.image, at, 4) && next == at + Field(r.image, at + 4, 4)
    ensures next <= end && Entries(r.image, at + 8, next, va) <= r.items[n..]
    ensures AtBlock(r, n + |Entries(r.image, at + 8, next, va)|, next, end)
  {
    var entries := Entries(r.image, at + 8, next, va);
    assert Items(r.image, at, end) == entries + Items(r.image, next, end);
    assert r.items[n..][|entries|..] == r.items[n + |entries|..];
  }
}

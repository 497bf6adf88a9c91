/**
 * What relocation does to the numbers in an image, and what the bytes of its directory ask for (EfiLdr/PeLoader.c;
 * "The .reloc Section (Image Only)" in the Microsoft PE/COFF specification): stated by kinds, bytes and plain sums, not
 * through the functions of module `PeReloc`.
 */
module RelocMeaning {
  import opened Arithmetic
  import opened LittleEndian
  import opened PeReloc

  // The numbers of two, four and eight bytes at an offset, the first byte the lowest
  function Two(s: seq<Byte>, at: nat): nat
    requires at + 2 <= |s|
  {
    Digit(s, at) + 0x100 * Digit(s, at + 1)
  }

  function Four(s: seq<Byte>, at: nat): nat
    requires at + 4 <= |s|
  {
    Two(s, at) + 0x1_0000 * Two(s, at + 2)
  }

  function Eight(s: seq<Byte>, at: nat): nat
    requires at + 8 <= |s|
  {
    Four(s, at) + 0x1_0000_0000 * Four(s, at + 4)
  }

  lemma FieldIsTwo(s: seq<Byte>, at: nat)
    requires at + 2 <= |s|
    ensures Field(s, at, 2) == Two(s, at)
  {
    TwoBytesMean(s[at..at + 2]);
  }

  lemma FieldIsFour(s: seq<Byte>, at: nat)
    requires at + 4 <= |s|
    ensures Field(s, at, 4) == Four(s, at)
  {
    FourBytesMean(s[at..at + 4]);
  }

  lemma FieldIsEight(s: seq<Byte>, at: nat)
    requires at + 8 <= |s|
    ensures Field(s, at, 8) == Eight(s, at)
  {
    EightBytesMean(s[at..at + 8]);
  }

  // The bytes that an entry of each kind changes
  function Bytewidth(kind: nat): nat {
    if kind == 1 || kind == 2 then 2 else if kind == 3 then 4 else if kind == 10 then 8 else 0
  }

  lemma WidthIs(i: Item)
    ensures Width(i) == if i.Fixup? then Bytewidth(i.kind) else 0
  {
  }

  lemma SumModulo(v: nat, a: nat, m: nat)
    requires m > 0
    ensures (v + a % m) % m == (v + a) % m
  {
    var q, r := (v + a % m) / m, (v + a % m) % m;
    var d := a / m;
    assert a == d * m + a % m && v + a % m == q * m + r;
    assert v + a == (q + d) * m + r;
    QuotientIs(v + a, m, q + d, r);
  }

  lemma HalfModulo(v: nat, a: nat)
    ensures (v + a % 0x1_0000_0000 / 0x1_0000) % 0x1_0000 == (v + a / 0x1_0000) % 0x1_0000
  {
    HighWord(a);
    SumModulo(v, a / 0x1_0000, 0x1_0000);
  }

  // The same of fields, however their bytes are read
  lemma FieldRaised(image: seq<Byte>, items: seq<Item>, adjust: nat, k: nat, offset: nat)
    requires AllInImage(items, |image|) && Disjoint(items) && k < |items|
    requires items[k].Fixup? && items[k].offset == offset && items[k].kind in {1, 2, 3, 10}
    ensures offset + Bytewidth(items[k].kind) <= |image|
    ensures var kind, now := items[k].kind, PatchAll(image, items, adjust);
      var was, v := Field(image, offset, Bytewidth(kind)), Field(now, offset, Bytewidth(kind));
      && (kind == 1 ==> v == (was + adjust / 0x1_0000) % 0x1_0000)
      && (kind == 2 ==> v == (was + adjust) % 0x1_0000)
      && (kind == 3 ==> v == (was + adjust) % 0x1_0000_0000)
      && (kind == 10 ==> v == (was + adjust) % 0x1_0000_0000_0000_0000)
  {
    FieldRelocated(image, items, adjust, k);
    WidthIs(items[k]);
    var f := Field(image, offset, Bytewidth(items[k].kind));
    match items[k].kind {
      case 1 => HalfModulo(f, adjust);
      case 2 => SumModulo(f, adjust, 0x1_0000);
      case 3 => SumModulo(f, adjust, 0x1_0000_0000);
      case _ => SumModulo(f, adjust, 0x1_0000_0000_0000_0000);
    }
  }

  /** A field of 16 bits is raised by the distance (kind 2), or by the distance without its low 16 bits (kind 1). */
  lemma HalvesMean(image: seq<Byte>, items: seq<Item>, adjust: nat, k: nat, offset: nat)
    requires AllInImage(items, |image|) && Disjoint(items) && k < |items|
    requires items[k] == Fixup(1, offset) || items[k] == Fixup(2, offset)
    ensures offset + 2 <= |image|
    ensures Two(PatchAll(image, items, adjust), offset)
         == (Two(image, offset) + if items[k] == Fixup(2, offset) then adjust else adjust / 0x1_0000) % 0x1_0000
  {
    FieldRaised(image, items, adjust, k, offset);
    FieldIsTwo(image, offset);
    FieldIsTwo(PatchAll(image, items, adjust), offset);
  }

  /** A field of 32 bits (kind 3) is raised by the distance. */
  lemma WordsMean(image: seq<Byte>, items: seq<Item>, adjust: nat, k: nat, offset: nat)
    requires AllInImage(items, |image|) && Disjoint(items) && k < |items| && items[k] == Fixup(3, offset)
    ensures offset + 4 <= |image|
    ensures Four(PatchAll(image, items, adjust), offset) == (Four(image, offset) + adjust) % 0x1_0000_0000
  {
    FieldRaised(image, items, adjust, k, offset);
    FieldIsFour(image, offset);
    FieldIsFour(PatchAll(image, items, adjust), offset);
  }

  /** A field of 64 bits (kind 10) is raised by the distance. */
  lemma LongsMean(image: seq<Byte>, items: seq<Item>, adjust: nat, k: nat, offset: nat)
    requires AllInImage(items, |image|) && Disjoint(items) && k < |items| && items[k] == Fixup(10, offset)
    ensures offset + 8 <= |image|
    ensures Eight(PatchAll(image, items, adjust), offset) == (Eight(image, offset) + adjust) % 0x1_0000_0000_0000_0000
  {
    FieldRaised(image, items, adjust, k, offset);
    FieldIsEight(image, offset);
    FieldIsEight(PatchAll(image, items, adjust), offset);
  }

  /** No other byte is changed. */
  lemma OthersMean(image: seq<Byte>, items: seq<Item>, adjust: nat, j: nat)
    requires AllInImage(items, |image|) && j < |image|
    requires forall k :: 0 <= k < |items| && items[k].Fixup? ==>
      !(items[k].offset <= j < items[k].offset + Bytewidth(items[k].kind))
    ensures PatchAll(image, items, adjust)[j] == image[j]
  {
    forall k | 0 <= k < |items| ensures !Covers(items[k], j) {
      WidthIs(items[k]);
    }
    ByteKept(image, items, adjust, j);
  }

  // ---------- the directory ----------

  // The entry at `at`, of a block for the page at va: four bits of kind, twelve of offset
  function EntryAt(image: seq<Byte>, at: nat, va: nat): Item
    requires at + 2 <= |image|
  {
    var e := Two(image, at);
    Fixup(e / 0x1000, va + e % 0x1000)
  }

  lemma {:induction false} EntriesNumber(image: seq<Byte>, at: nat, end: nat, va: nat)
    requires at <= end < |image|
    ensures |Entries(image, at, end, va)| == (end - at + 1) / 2
    decreases end - at
  {
    if at + 1 < end {
      EntriesNumber(image, at + 2, end, va);
    }
  }

  /** Entry n of a block is at its n-th two bytes, and asks for an offset in the page of the block. */
  lemma {:induction false} EntryMeans(image: seq<Byte>, at: nat, end: nat, va: nat, n: nat, p: nat)
    requires p == at + 2 * n < end < |image|
    ensures n < |Entries(image, at, end, va)| && Entries(image, at, end, va)[n] == EntryAt(image, p, va)
    decreases n
  {
    if n == 0 {
      FieldIsTwo(image, p);
    } else {
      EntryMeans(image, at + 2, end, va, n - 1, p);
    }
  }

  /** The directory ends where its length does, at a block that runs past the image, or at one of size zero. */
  lemma DirectoryEnds(image: seq<Byte>, at: nat, end: nat)
    requires end < |image| && Tiled(image, at, end)
    ensures at >= end ==> Items(image, at, end) == []
    ensures at < end ==>
      && at + 8 <= end
      && (at + Four(image, at + 4) >= |image| ==> Items(image, at, end) == [PastImage])
      && (Four(image, at + 4) == 0 ==> Items(image, at, end) == [Stuck])
  {
    if at < end {
      FieldIsFour(image, at + 4);
    }
  }

  // The entries of a block, from its byte 8 to its size
  function EntryCount(size: nat): nat { if size <= 8 then 0 else (size - 7) / 2 }

  /** A block is its page, its size and its entries, and the next block comes right after it. */
  lemma BlockMeans(image: seq<Byte>, at: nat, end: nat, va: nat, size: nat)
    requires at < end < |image| && Tiled(image, at, end) && at + 8 <= |image|
    requires va == Four(image, at) && size == Four(image, at + 4) && 0 < size && at + size < |image|
    ensures at + size <= end && Tiled(image, at + size, end)
    ensures Items(image, at, end) == Entries(image, at + 8, at + size, va) + Items(image, at + size, end)
    ensures |Entries(image, at + 8, at + size, va)| == EntryCount(size)
  {
    FieldIsFour(image, at);
    FieldIsFour(image, at + 4);
    ItemsOf(image, at, end, va, size);
    if size > 8 {
      EntriesNumber(image, at + 8, at + size, va);
    }
  }

  // Carried out, by its kind
  predicate Carried(i: Item) { i.Fixup? && (i.kind == 0 || i.kind == 1 || i.kind == 2 || i.kind == 3 || i.kind == 10) }

  /** A run is done if every item can be carried out; the first that cannot decides whether it fails or hangs. */
  lemma VerdictMeans(items: seq<Item>)
    ensures Verdict(items) == Done <==> forall k :: 0 <= k < |items| ==> Carried(items[k])
    ensures Verdict(items) == LoadError <==>
      exists k :: 0 <= k < |items| && items[k] == PastImage && forall l :: 0 <= l < k ==> Carried(items[l])
    ensures Verdict(items) == Hang <==>
      exists k :: 0 <= k < |items| && items[k] != PastImage && !Carried(items[k])
        && forall l :: 0 <= l < k ==> Carried(items[l])
    ensures forall l :: 0 <= l < Good(items) ==> Carried(items[l])
    ensures Good(items) < |items| ==> !Carried(items[Good(items)])
  {
    assert forall i: Item :: Known(i) <==> Carried(i);
  }

  /** The log takes the fields one after the other, those of four and eight bytes at the next multiple of their size. */
  lemma LogMeans(items: seq<Item>, k: nat)
    requires k < |items| && items[k].Fixup?
    ensures var from, at := LogEnd(items[..k]), LogAt(items, k);
      && LogEnd(items[..k + 1]) == at + Bytewidth(items[k].kind)
      && (if items[k].kind == 3 then at % 4 == 0 && from <= at < from + 4
          else if items[k].kind == 10 then at % 8 == 0 && from <= at < from + 8
          else at == from)
    ensures LogEnd(items[..0]) == 0
  {
    assert items[..k + 1][..k] == items[..k];
  }

  /** A directory is looked for where both its ends are addresses of the image; its length is added in 32 bits. */
  lemma InsideMeans(at: nat, size: nat, length: nat)
    requires at < 0x1_0000_0000 && size < 0x1_0000_0000
    ensures DirectoryEnd(at, size) == if at + size < 0x1_0000_0000 then at + size else at + size - 0x1_0000_0000
    ensures Inside(at, size, length) <==> at < length && DirectoryEnd(at, size) < length
  {
    ModOnce(at + size, 0x1_0000_0000);
  }
}

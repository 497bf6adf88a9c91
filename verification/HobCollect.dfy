/**
 * What PrepareHobMemory finds (DxeIpl/HobGeneration.c): that the two ranges it reports miss nothing that they should
 * have, descriptor by descriptor, and the constants of the layout.
 */
module HobCollect {
  import opened Arithmetic
  import opened MachineWords
  import opened Wrappers
  import opened MemoryMap
  import opened HobLayout

  // The loop gets as far as descriptor j: none before it at or above 1 MB is run-time services code or data.
  ghost predicate Reached(ds: seq<Desc>, j: nat)
    requires j <= |ds|
  {
    forall i :: 0 <= i < j ==> ds[i].start < 0x10_0000 || (ds[i].kind != 5 && ds[i].kind != 6)
  }

  // Free memory at or above an address
  predicate FreeFrom(d: Desc, floor: nat) { d.kind == 7 && d.start >= floor }

  predicate InSpace(d: Desc) { d.start + d.pages * 4096 < TWO64 }

  // No range wraps around.
  predicate NoWrap(f: Found) { f.start + f.length < TWO64 && f.start4 + f.length4 < TWO64 }

  // One of the two ranges after a descriptor: it begins with the first one that counts, and goes on with one that
  // begins where it ended.
  predicate Extended(d: Desc, floor: nat, start: nat, length: nat, start': nat, length': nat) {
    if !FreeFrom(d, floor) then start' == start && length' == length
    else if start == 0 then start' == d.start && length' == d.pages * 4096
    else if start + length == d.start then start' == start && length' == length + d.pages * 4096
    else start' == start && length' == length
  }

  lemma Collect1Means(d: Desc, f: Found)
    requires InSpace(d) && NoWrap(f) && d.start >= MB
    ensures var g := Collect1(d, f);
      NoWrap(g) && Extended(d, 0x10_0000, f.start, f.length, g.start, g.length)
      && g.start4 == f.start4 && g.length4 == f.length4
  {
  }

  lemma Collect4Means(d: Desc, f: Found)
    requires InSpace(d) && NoWrap(f)
    ensures var g := Collect4(d, f);
      NoWrap(g) && Extended(d, 0x1_0000_0000, f.start4, f.length4, g.start4, g.length4)
      && g.start == f.start && g.length == f.length
  {
  }

  // What one descriptor does to both ranges
  ghost predicate Passed(d: Desc, f: Found, g: Found) {
    && NoWrap(g)
    && Extended(d, 0x10_0000, f.start, f.length, g.start, g.length)
    && Extended(d, 0x1_0000_0000, f.start4, f.length4, g.start4, g.length4)
  }

  /** Each descriptor that the loop reaches does this to the ranges before it. */
  lemma StepMeans(ds: seq<Desc>, i: nat, f: Found) returns (g: Found)
    requires i < |ds| && InSpace(ds[i]) && NoWrap(f)
    ensures Passed(ds[i], f, g)
    ensures Collected(ds, i, f) ==
      if ds[i].start >= 0x10_0000 && (ds[i].kind == 5 || ds[i].kind == 6) then g else Collected(ds, i + 1, g)
  {
    var d := ds[i];
    if d.start < MB {
      g := f;
    } else {
      Collect1Means(d, f);
      g := Collect1(d, f);
      if d.kind != RESERVED && d.kind < ACPI_RECLAIM && d.kind != RUNTIME_CODE && d.kind != RUNTIME_DATA {
        Collect4Means(d, g);
        g := Collect4(d, g);
      }
    }
  }

  // A range that has begun keeps its start and never gets shorter.
  predicate Goes(start: nat, length: nat, start': nat, length': nat) {
    start > 0 ==> start' == start && length <= length'
  }

  lemma {:induction false} RangesGo(ds: seq<Desc>, i: nat, f: Found)
    requires i <= |ds| && NoWrap(f) && forall j :: 0 <= j < |ds| ==> InSpace(ds[j])
    ensures var r := Collected(ds, i, f);
      Goes(f.start, f.length, r.start, r.length) && Goes(f.start4, f.length4, r.start4, r.length4)
    decreases |ds| - i
  {
    if i < |ds| {
      var g := StepMeans(ds, i, f);
      RangesGo(ds, i + 1, g);
    }
  }

  // The ranges before descriptor j, and the rest of the loop from there
  lemma {:induction false} GoesOn(ds: seq<Desc>, i: nat, j: nat, f: Found)
    requires i <= j <= |ds| && Reached(ds, j) && NoWrap(f) && forall k :: 0 <= k < |ds| ==> InSpace(ds[k])
    ensures NoWrap(Collected(ds[..j], i, f)) && Collected(ds, i, f) == Collected(ds, j, Collected(ds[..j], i, f))
    decreases j - i
  {
    if i < j {
      var g := StepMeans(ds, i, f);
      var g' := StepMeans(ds[..j], i, f);
      assert ds[..j][i] == ds[i];
      assert g == g';
      GoesOn(ds, i + 1, j, g);
    }
  }

  // What the descriptors before j have been reported as
  function Before(ds: seq<Desc>, j: nat): Found
    requires j <= |ds|
  {
    Collected(ds[..j], 0, NOTHING)
  }

  /**
   * Nothing is missed: a free descriptor at or above 1 MB that the loop reaches starts the range if it is the first,
   * and all of it is in the range if it starts it or begins where the range had ended.  The same from 4 GB on.
   */
  lemma CollectedComplete(ds: seq<Desc>, j: nat)
    requires j < |ds| && Reached(ds, j) && ds[j].kind == 7 && forall k :: 0 <= k < |ds| ==> InSpace(ds[k])
    ensures var f, b, end := Collected(ds, 0, NOTHING), Before(ds, j), ds[j].start + ds[j].pages * 4096;
      && (ds[j].start >= 0x10_0000 ==>
            && (b.start == 0 ==> f.start == ds[j].start)
            && (b.start == 0 || b.start + b.length == ds[j].start ==>
                  f.start <= ds[j].start && end <= f.start + f.length))
      && (ds[j].start >= 0x1_0000_0000 ==>
            && (b.start4 == 0 ==> f.start4 == ds[j].start)
            && (b.start4 == 0 || b.start4 + b.length4 == ds[j].start ==>
                  f.start4 <= ds[j].start && end <= f.start4 + f.length4))
  {
    GoesOn(ds, 0, j, NOTHING);
    var g := StepMeans(ds, j, Before(ds, j));
    RangesGo(ds, j + 1, g);
  }

  // A free descriptor at or above an address among the first j
  ghost predicate Any(ds: seq<Desc>, j: nat, floor: nat)
    requires j <= |ds|
  {
    exists i :: 0 <= i < j && FreeFrom(ds[i], floor)
  }

  /** A range has begun just if a free descriptor that counts for it has been reached. */
  lemma {:induction false} BegunIff(ds: seq<Desc>, j: nat)
    requires j <= |ds| && Reached(ds, j) && forall k :: 0 <= k < |ds| ==> InSpace(ds[k])
    ensures Before(ds, j).start > 0 <==> Any(ds, j, 0x10_0000)
    ensures Before(ds, j).start4 > 0 <==> Any(ds, j, 0x1_0000_0000)
    ensures NoWrap(Before(ds, j))
    decreases j
  {
    if j == 0 {
      assert ds[..0] == [];
    } else {
      var first := ds[..j];
      BegunIff(ds, j - 1);
      assert first[..j - 1] == ds[..j - 1];
      GoesOn(first, 0, j - 1, NOTHING);
      var g := StepMeans(first, j - 1, Before(ds, j - 1));
      AnyNext(ds, j - 1, 0x10_0000);
      AnyNext(ds, j - 1, 0x1_0000_0000);
    }
  }

  lemma AnyNext(ds: seq<Desc>, j: nat, floor: nat)
    requires j < |ds|
    ensures Any(ds, j + 1, floor) <==> Any(ds, j, floor) || FreeFrom(ds[j], floor)
  {
  }

  /** The constants of the layout, in numbers */
  lemma ConstantsMean()
    ensures STACK_SIZE == 0x2_0000 && CONSUMED_MEMORY == 0x500_0000 && DESCRIPTOR_SIZE == 40
    ensures FV_HEADER_LENGTH == 0x48 && NV_STORAGE_FVB_SIZE == 0x1_0000 && NV_FTW_FVB_SIZE == 0x2_0000
    ensures NV_FTW_WORKING_SIZE == 0x2000 && NV_FTW_SPARE_SIZE == 0x1_0000
  {
  }

  /** Where memory ends for a pointer: where it does, or less by a multiple of 4 GB and not above 4 GB. */
  lemma TopMeans(end: nat)
    ensures TopOf(true, end) == end
    ensures 0 < TopOf(false, end) <= 0x1_0000_0000 && (end - TopOf(false, end)) % 0x1_0000_0000 == 0
  {
    WordIsModulo(false, end);
    var q, r := end / TWO32, end % TWO32;
    assert end == q * TWO32 + r;
    if r == 0 {
      QuotientIs(end - GB4, TWO32, q - 1, 0);
    } else {
      QuotientIs(end - r, TWO32, q, 0);
    }
  }

  /**
   * Every place of a layout in order, from the top down: 64 KB for the NV volume and 128 KB for the other, 128 KB of
   * stack, the page tables, and the copy of the descriptors at the page below; the HOBs begin 80 MB below the stack's
   * top.
   */
  lemma PlacesMean(x64: bool, bits: nat, f: Found, descriptors: nat, hobSize: nat, l: Layout)
    requires Roomy(x64, f) && descriptors <= MAX_DESCRIPTORS && hobSize <= MB
    requires LaidOut(x64, bits, f, descriptors, hobSize) == Some(l) && InOrder(l)
    ensures l.ftw + 0x2_0000 == TopOf(x64, f.start + f.length) && l.memoryTop + 0x1_0000 == l.ftw
    ensures l.stack + 0x2_0000 == l.memoryTop
    ensures l.tables + (if x64 then 4096 * TablePages64(bits) else 0x2000) == l.stack
    ensures l.freeTop % 4096 == 0 && l.freeTop + 40 * descriptors <= l.tables < l.freeTop + 40 * descriptors + 4096
    ensures l.memoryBottom + 0x500_0000 == l.memoryTop && l.freeBottom == l.memoryBottom + hobSize
  {
    LayoutMeaning(x64, bits, f, descriptors, hobSize);
    RoomyFields(x64, bits, f, descriptors, hobSize, l);
    TablesPlace(x64, bits, f, descriptors, hobSize, l);
    CopyPlace(x64, l.tables, descriptors, l.freeTop);
  }

  lemma TablesPlace(x64: bool, bits: nat, f: Found, descriptors: nat, hobSize: nat, l: Layout)
    requires Roomy(x64, f) && LaidOut(x64, bits, f, descriptors, hobSize) == Some(l) && InOrder(l)
    requires descriptors <= MAX_DESCRIPTORS && hobSize <= MB
    ensures l.tables + (if x64 then 4096 * TablePages64(bits) else 0x2000) == l.stack
    ensures l.freeBottom == l.memoryBottom + hobSize
  {
    LaidOutRoomy(x64, bits, f, descriptors, hobSize);
    RoomyTop(x64, f, TopOf(x64, f.start + f.length));
    if x64 && Pml4Bits(bits) > 9 {
      NoTables(l.stack, descriptors);
    }
  }

  lemma CopyPlace(x64: bool, tables: nat, descriptors: nat, freeTop: nat)
    requires tables < WordRange(x64) - 2 * PAGE && descriptors <= MAX_DESCRIPTORS
    requires freeTop == PageDown(UintN(x64, tables - descriptors * DESCRIPTOR_SIZE)) <= tables
    ensures freeTop % 4096 == 0 && freeTop + 40 * descriptors <= tables < freeTop + 40 * descriptors + 4096
  {
    MinusN(x64, tables, descriptors * DESCRIPTOR_SIZE);
  }

  /**
   * The page tables of X64: three levels of at most 512 entries, filled from the lowest, that together map 2^bits bytes
   * in pages of 2 MB; one table at the top, one for each of its entries, one for each of theirs, and one for 4 KB
   * pages.
   */
  lemma TablesMap(bits: nat)
    requires 21 <= bits <= 48
    ensures var a, b, c := Pml4Bits(bits), PdpteBits(bits), PdeBits(bits);
      && a <= 9 && b <= 9 && c <= 9 && (b > 0 ==> c == 9) && (a > 0 ==> b == 9)
      && Pow2(21) * (Pow2(a) * Pow2(b) * Pow2(c)) == Pow2(bits)
      && TablePages64(bits) == 1 + Pow2(a) + Pow2(a) * Pow2(b) + 1
  {
    var a, b, c := Pml4Bits(bits), PdpteBits(bits), PdeBits(bits);
    assert a + b + c == bits - 21;
    Pow2Add(a, b);
    Pow2Add(a + b, c);
    Pow2Add(21, a + b + c);
  }
}

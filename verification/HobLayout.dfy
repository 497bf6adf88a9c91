/**
 * The memory layout DxeIpl hands to the DXE core (DxeIpl/HobGeneration.c, called in order by
 * DxeIpl/DxeInit.c): below the top of free memory it stacks the FTW volume, the NV volume, the stack,
 * the page tables and a copy of the descriptors, and at a fixed distance below the stack top the HOBs.
 */
module HobLayout {
  import opened Arithmetic
  import opened MachineWords
  import opened Wrappers
  import opened MemoryMap
  import opened BootLoader

  const FV_HEADER_LENGTH: nat := 0x48
  const NV_STORAGE_FVB_SIZE: nat := (0x4000 + FV_HEADER_LENGTH + 0xffff) / 0x10000 * 0x10000
  const NV_FTW_WORKING_SIZE: nat := 0x2000
  const NV_FTW_SPARE_SIZE: nat := 0x10000
  const NV_FTW_FVB_SIZE: nat :=
    (NV_FTW_WORKING_SIZE + NV_FTW_SPARE_SIZE + FV_HEADER_LENGTH + 0xffff) / 0x10000 * 0x10000
  const STACK_SIZE: nat := 0x20 * PAGE
  // 80 MB; the layout drawn at the top of DxeInit.c says 4 MB
  const CONSUMED_MEMORY: nat := 0x100000 * 80
  const DESCRIPTOR_SIZE: nat := 40
  const LOW_START: nat := 0x86000
  const LOW_END: nat := 0x9f800

  function PageDown(x: nat): (r: nat)
    ensures r % PAGE == 0 && r <= x < r + PAGE
  {
    x / PAGE * PAGE
  }

  // ---------- the free memory above 1 MB ----------

  // MemoryAbove1MB and MemoryAbove4GB: start and length; a start of 0 means none yet
  datatype Found = Found(start: nat, length: nat, start4: nat, length4: nat)

  const NOTHING := Found(0, 0, 0, 0)

  function Collect1(d: Desc, f: Found): Found {
    if d.kind != CONVENTIONAL then f
    else if f.start == 0 then f.(start := d.start, length := U64(d.pages * PAGE))
    else if U64(f.start + f.length) == d.start then f.(length := U64(f.length + d.pages * PAGE))
    else f
  }

  function Collect4(d: Desc, f: Found): Found {
    if d.start < GB4 || d.kind != CONVENTIONAL then f
    else
      var g := if f.start4 == 0 then f.(start4 := d.start, length4 := U64(d.pages * PAGE)) else f;
      if U64(g.start4 + g.length4) == d.start then g.(length4 := U64(g.length4 + d.pages * PAGE)) else g
  }

  // Low memory from 0x86000 ends at the EBDA, if that is between 0x9a000 and 0x9f800, and otherwise at 0x9f800.
  predicate LowMemory(ebda: nat, length: nat) {
    0x8_6000 + length == if 0x9_a000 <= 16 * ebda <= 0x9_f800 then 16 * ebda else 0x9_f800
  }

  // The loop of PrepareHobMemory from index i on.
  function Collected(ds: seq<Desc>, i: nat, f: Found): Found
    requires i <= |ds|
    decreases |ds| - i
  {
    if i == |ds| then f
    else if ds[i].start < MB then Collected(ds, i + 1, f)
    else
      var g := Collect1(ds[i], f);
      if ds[i].kind == RESERVED || ds[i].kind >= ACPI_RECLAIM then Collected(ds, i + 1, g)
      else if ds[i].kind == RUNTIME_CODE || ds[i].kind == RUNTIME_DATA then g
      else Collected(ds, i + 1, Collect4(ds[i], g))
  }

  // A page-aligned range of free pages above 1 MB.
  ghost predicate FreeRange(ds: seq<Desc>, start: nat, length: nat) {
    && start % PAGE == 0 && length % PAGE == 0 && start + length <= TWO64
    && forall p: nat :: start / PAGE <= p < (start + length) / PAGE ==> Has(ds, CONVENTIONAL, p)
  }

  ghost predicate Reported(ds: seq<Desc>, f: Found) {
    && FreeRange(ds, f.start, f.length) && f.start + f.length < TWO64 && (f.start == 0 || f.start >= MB)
    && FreeRange(ds, f.start4, f.length4) && f.start4 + f.length4 < TWO64 && (f.start4 == 0 || f.start4 >= GB4)
  }

  lemma ExtendRange(ds: seq<Desc>, k: nat, start: nat, length: nat)
    requires WellFormed(ds) && k < |ds| && ds[k].kind == CONVENTIONAL
    requires FreeRange(ds, start, length) && start + length == ds[k].start
    ensures FreeRange(ds, start, length + ds[k].pages * PAGE)
  {
    var d := ds[k];
    forall p: nat | start / PAGE <= p < (start + length + d.pages * PAGE) / PAGE ensures Has(ds, CONVENTIONAL, p) {
      assert p < (start + length) / PAGE || Covers(d, p);
    }
  }

  lemma Collect1Keeps(ds: seq<Desc>, k: nat, f: Found)
    requires WellFormed(ds) && k < |ds| && ds[k].start >= MB && ds[k].start + ds[k].pages * PAGE < TWO64
    requires Reported(ds, f)
    ensures Reported(ds, Collect1(ds[k], f))
  {
    var d := ds[k];
    if d.kind == CONVENTIONAL && f.start == 0 {
      ExtendRange(ds, k, d.start, 0);
      assert U64(d.pages * PAGE) == d.pages * PAGE;
    } else if d.kind == CONVENTIONAL && f.start + f.length == d.start {
      ExtendRange(ds, k, f.start, f.length);
      assert U64(f.length + d.pages * PAGE) == f.length + d.pages * PAGE;
    }
  }

  lemma Collect4Keeps(ds: seq<Desc>, k: nat, f: Found)
    requires WellFormed(ds) && k < |ds| && ds[k].start >= MB && ds[k].start + ds[k].pages * PAGE < TWO64
    requires Reported(ds, f)
    ensures Reported(ds, Collect4(ds[k], f))
  {
    var d := ds[k];
    if d.kind == CONVENTIONAL && d.start >= GB4 {
      var length := d.pages * PAGE;
      assert U64(length) == length;
      if f.start4 == 0 {
        ExtendRange(ds, k, d.start, 0);
      } else if f.start4 + f.length4 == d.start {
        ExtendRange(ds, k, f.start4, f.length4);
        assert U64(f.length4 + length) == f.length4 + length;
      }
    }
  }

  /** Whatever the order of the map, what is reported above 1 MB and 4 GB is free memory and nothing else. */
  lemma {:induction false} CollectedIsFree(ds: seq<Desc>, i: nat, f: Found)
    requires WellFormed(ds) && i <= |ds| && Reported(ds, f)
    requires forall j :: 0 <= j < |ds| ==> ds[j].start + ds[j].pages * PAGE < TWO64
    ensures Reported(ds, Collected(ds, i, f))
    decreases |ds| - i
  {
    if i < |ds| {
      var d := ds[i];
      if d.start < MB {
        CollectedIsFree(ds, i + 1, f);
      } else {
        Collect1Keeps(ds, i, f);
        var g := Collect1(d, f);
        Collect4Keeps(ds, i, g);
        if d.kind == RESERVED || d.kind >= ACPI_RECLAIM {
          CollectedIsFree(ds, i + 1, g);
        } else if d.kind != RUNTIME_CODE && d.kind != RUNTIME_DATA {
          CollectedIsFree(ds, i + 1, Collect4(d, g));
        }
      }
    }
  }

  // ---------- page tables (DxeIpl/X64/Paging.c, DxeIpl/Ia32/Paging.c) ----------

  function Min(a: nat, b: nat): nat { if a < b then a else b }

  // How the bits above a 2 MB page are split over the three levels; the subtraction is on 8 bits.
  function UpperBits(bits: nat): nat { (bits as int - 21) % 256 }
  function PdeBits(bits: nat): nat { Min(UpperBits(bits), 9) }
  function PdpteBits(bits: nat): nat { Min(UpperBits(bits) - PdeBits(bits), 9) }
  function Pml4Bits(bits: nat): nat { UpperBits(bits) - PdeBits(bits) - PdpteBits(bits) }

  function TablePages64(bits: nat): nat { 1 + Pow2(Pml4Bits(bits)) + Pow2(Pml4Bits(bits) + PdpteBits(bits)) + 1 }

  datatype Tables = Hang | At(base: nat)

  // PreparePageTable: two pages on IA32; on X64 as many as the physical address width needs
  function PageTables(x64: bool, top: nat, bits: nat): Tables {
    if !x64 then At(U32(top - 2 * PAGE))
    else if Pml4Bits(bits) > 9 then At(0)
    else
      var size := TablePages64(bits) * PAGE;
      if size + 128 * MB > top then Hang else At(top - size)
  }

  lemma {:induction false} Pow2Monotonic(a: nat, b: nat)
    requires a <= b
    ensures Pow2(a) <= Pow2(b)
    decreases b
  {
    if a < b {
      Pow2Monotonic(a, b - 1);
    }
  }

  // The page tables stay below 65 MB up to 44 address bits and exceed 128 MB from 45 on.
  lemma TableSize(bits: nat)
    requires bits < 256 && Pml4Bits(bits) <= 9
    ensures 21 <= bits <= 48
    ensures bits <= 44 ==> TablePages64(bits) <= 16418
    ensures bits >= 45 ==> TablePages64(bits) >= 32834
  {
    var a, b := Pml4Bits(bits), Pml4Bits(bits) + PdpteBits(bits);
    assert Pow2(5) == 32 && Pow2(6) == 64;
    assert Pow2(14) == 2 * (2 * (2 * (2 * (2 * (2 * (2 * (2 * Pow2(6)))))))) == 16384;
    assert Pow2(15) == 2 * Pow2(14) == 32768;
    if bits <= 44 {
      Pow2Monotonic(a, 5);
      Pow2Monotonic(b, 14);
    } else {
      Pow2Monotonic(6, a);
      Pow2Monotonic(15, b);
    }
  }

  // ---------- the layout ----------

  datatype Layout = Layout(
    memoryBottom: nat,  // the HOBs, up to
    freeBottom: nat,    // free memory, up to
    freeTop: nat,       // the descriptor copy, up to
    tables: nat,        // the page tables, up to
    stack: nat,         // the stack, up to
    memoryTop: nat,     // the NV volume, up to
    ftw: nat,           // the FTW volume
    aboveStart: nat, aboveLength: nat)

  function NvBase(x64: bool, top: nat): nat { PageDown(UintN(x64, top - NV_STORAGE_FVB_SIZE - NV_FTW_FVB_SIZE)) }

  // What DxeInit computes from what PrepareHobMemory found, with pointers of 64 bits on X64 and 32 on IA32, and HOB
  // fields of 64; None where it hangs.
  function LaidOut(x64: bool, bits: nat, f: Found, descriptors: nat, hobSize: nat): Option<Layout> {
    var nv := NvBase(x64, UintN(x64, U64(f.start + f.length)));
    match PageTables(x64, UintN(x64, U64(nv - STACK_SIZE)), bits)
    case Hang => None
    case At(tables) => Some(LaidOutAbove(x64, nv, tables, f, descriptors, hobSize))
  }

  function LaidOutAbove(x64: bool, nv: nat, tables: nat, f: Found, descriptors: nat, hobSize: nat): Layout {
    var freeTop := PageDown(UintN(x64, tables - descriptors * DESCRIPTOR_SIZE));
    var bottom := U64(nv - CONSUMED_MEMORY);
    Layout(bottom, U64(bottom + hobSize), freeTop, tables, U64(nv - STACK_SIZE), nv,
           UintN(x64, nv + NV_STORAGE_FVB_SIZE),
           f.start, if U64(f.start + f.length) > nv then U64(nv - f.start) else f.length)
  }

  lemma LaidOutBy(x64: bool, bits: nat, f: Found, descriptors: nat, hobSize: nat, nv: nat, tables: Tables)
    requires nv == NvBase(x64, UintN(x64, U64(f.start + f.length)))
    requires tables == PageTables(x64, UintN(x64, U64(nv - STACK_SIZE)), bits)
    ensures LaidOut(x64, bits, f, descriptors, hobSize)
         == if tables == Hang then None else Some(LaidOutAbove(x64, nv, tables.base, f, descriptors, hobSize))
  {
  }

  predicate InOrder(l: Layout) {
    l.memoryBottom <= l.freeBottom <= l.freeTop <= l.tables <= l.stack <= l.memoryTop
  }

  // Where memory that ends at `end` ends for a pointer: on IA32 modulo 2^32, a multiple of which is 4 GB.
  function TopOf(x64: bool, end: nat): nat {
    if x64 then end else if U32(end) == 0 then GB4 else U32(end)
  }

  // Memory as PrepareHobMemory finds it
  predicate Sound4K(f: Found) {
    && f.start % PAGE == 0 && f.length % PAGE == 0 && f.start + f.length < TWO64
    && (if f.start == 0 then f.length == 0 else f.start >= MB)
  }

  // Below where it ends for a pointer, the memory has room for the volumes and the consumed memory below them.
  predicate Roomy(x64: bool, f: Found) {
    && Sound4K(f) && f.start > 0
    && f.start + CONSUMED_MEMORY + NV_STORAGE_FVB_SIZE + NV_FTW_FVB_SIZE <= TopOf(x64, f.start + f.length)
  }

  lemma TopOfPages(x64: bool, end: nat)
    requires end % PAGE == 0 && 0 < end < TWO64
    ensures var top := TopOf(x64, end); 0 < top <= end && top % PAGE == 0 && (x64 || top <= GB4)
    ensures UintN(x64, U64(end)) == if !x64 && TopOf(x64, end) == GB4 then 0 else TopOf(x64, end)
  {
    if !x64 {
      LowPages(end);
    }
  }

  lemma LowPages(end: nat)
    requires end % PAGE == 0
    ensures U32(end) % PAGE == 0 && U32(end) <= end && U32(end) < TWO32
  {
    var q, p := end / TWO32, end / PAGE;
    WordIsModulo(false, end);
    assert end == q * TWO32 + U32(end) && end == p * PAGE;
    QuotientIs(U32(end), PAGE, p - q * 0x10_0000, 0);
  }

  // Where the volumes go, without wrap-around where there is room for them
  function NvBelow(x64: bool, top: nat): int {
    if top >= 0x30000 then top - 0x30000 else WordRange(x64) + top - 0x30000
  }

  lemma NvIs(x64: bool, f: Found, top: nat)
    requires Sound4K(f) && f.start > 0 && top == TopOf(x64, f.start + f.length)
    ensures NV_STORAGE_FVB_SIZE == 0x10000 && NV_FTW_FVB_SIZE == 0x20000
    ensures 0 < top <= f.start + f.length && top <= WordRange(x64)
    ensures NvBase(x64, UintN(x64, U64(f.start + f.length))) == NvBelow(x64, top)
    ensures NvBelow(x64, top) % PAGE == 0 && 0 <= NvBelow(x64, top) < WordRange(x64)
  {
    TopOfPages(x64, f.start + f.length);
    NvBaseIs(x64, top, UintN(x64, U64(f.start + f.length)));
  }

  lemma VolumesOnTop(x64: bool, f: Found, top: nat, nv: nat)
    requires Roomy(x64, f) && top == TopOf(x64, f.start + f.length) && nv == top - 0x30000
    ensures NV_STORAGE_FVB_SIZE == 0x10000 && NV_FTW_FVB_SIZE == 0x20000
    ensures top <= f.start + f.length && (x64 || top <= GB4)
    ensures NvBase(x64, UintN(x64, U64(f.start + f.length))) == nv && nv % PAGE == 0
    ensures UintN(x64, U64(nv - STACK_SIZE)) == U64(nv - STACK_SIZE) == nv - STACK_SIZE
    ensures U64(nv - CONSUMED_MEMORY) == nv - CONSUMED_MEMORY >= f.start
    ensures UintN(x64, nv + NV_STORAGE_FVB_SIZE) == nv + 0x10000
  {
    NvIs(x64, f, top);
    Minus64(nv, STACK_SIZE);
    Minus64(nv, CONSUMED_MEMORY);
    PlusN(x64, nv, 0x10000);
  }

  // The volumes below a pointer to the end of the memory
  lemma NvBaseIs(x64: bool, top: nat, pointer: nat)
    requires top % PAGE == 0 && 0 < top <= WordRange(x64) && pointer == if top == WordRange(x64) then 0 else top
    ensures NV_STORAGE_FVB_SIZE == 0x10000 && NV_FTW_FVB_SIZE == 0x20000
    ensures NvBase(x64, pointer) == NvBelow(x64, top) && NvBelow(x64, top) % PAGE == 0
    ensures 0 <= NvBelow(x64, top) < WordRange(x64)
  {
    assert NV_STORAGE_FVB_SIZE == 0x10000 && NV_FTW_FVB_SIZE == 0x20000;
    var nv := NvBelow(x64, top);
    MinusN(x64, pointer, 0x30000);
    PageDownOfPage(nv);
  }

  lemma PageDownOfPage(x: nat)
    requires x % PAGE == 0
    ensures PageDown(x) == x
  {
  }

  // The layout without wrap-around, for room enough.
  lemma LaidOutRoomy(x64: bool, bits: nat, f: Found, descriptors: nat, hobSize: nat)
    requires Roomy(x64, f)
    ensures var nv := TopOf(x64, f.start + f.length) - 0x30000;
      && CONSUMED_MEMORY + f.start <= nv
      && LaidOut(x64, bits, f, descriptors, hobSize) ==
        match PageTables(x64, nv - STACK_SIZE, bits)
        case Hang => None
        case At(tables) => Some(Layout(nv - CONSUMED_MEMORY, U64(nv - CONSUMED_MEMORY + hobSize),
                                       PageDown(UintN(x64, tables - descriptors * DESCRIPTOR_SIZE)), tables,
                                       nv - STACK_SIZE, nv, nv + 0x10000, f.start, nv - f.start))
  {
    var nv := TopOf(x64, f.start + f.length) - 0x30000;
    var t := PageTables(x64, nv - STACK_SIZE, bits);
    LaidOutFrom(x64, bits, f, descriptors, hobSize, nv);
    if t.At? {
      AboveRoomy(x64, nv, t.base, f, descriptors, hobSize);
    }
  }

  lemma LaidOutFrom(x64: bool, bits: nat, f: Found, descriptors: nat, hobSize: nat, nv: nat)
    requires Roomy(x64, f) && nv == TopOf(x64, f.start + f.length) - 0x30000
    ensures CONSUMED_MEMORY + f.start <= nv && nv + 0x30000 <= f.start + f.length
    ensures nv + 0x30000 <= WordRange(x64)
    ensures var t := PageTables(x64, nv - STACK_SIZE, bits);
      LaidOut(x64, bits, f, descriptors, hobSize)
      == if t == Hang then None else Some(LaidOutAbove(x64, nv, t.base, f, descriptors, hobSize))
  {
    VolumesOnTop(x64, f, nv + 0x30000, nv);
    LaidOutBy(x64, bits, f, descriptors, hobSize, nv, PageTables(x64, nv - STACK_SIZE, bits));
  }

  lemma AboveRoomy(x64: bool, nv: nat, tables: nat, f: Found, descriptors: nat, hobSize: nat)
    requires f.start + CONSUMED_MEMORY <= nv < f.start + f.length < TWO64 && nv + 0x30000 <= WordRange(x64)
    ensures LaidOutAbove(x64, nv, tables, f, descriptors, hobSize)
         == Layout(nv - CONSUMED_MEMORY, U64(nv - CONSUMED_MEMORY + hobSize),
                   PageDown(UintN(x64, tables - descriptors * DESCRIPTOR_SIZE)), tables,
                   nv - STACK_SIZE, nv, nv + 0x10000, f.start, nv - f.start)
  {
    Minus64(nv, CONSUMED_MEMORY);
    Minus64(nv, STACK_SIZE);
    Minus64(nv, f.start);
    PlusN(x64, nv, 0x10000);
  }

  lemma CopyBelowTables(x64: bool, tables: nat, descriptors: nat)
    requires descriptors <= MAX_DESCRIPTORS && tables < WordRange(x64) - 2 * PAGE
    requires PageDown(UintN(x64, tables - descriptors * DESCRIPTOR_SIZE)) <= tables
    ensures PageDown(UintN(x64, tables - descriptors * DESCRIPTOR_SIZE)) + descriptors * DESCRIPTOR_SIZE <= tables
  {
    MinusN(x64, tables, descriptors * DESCRIPTOR_SIZE);
  }

  /**
   * When the layout is in order, everything in it is disjoint and inside the reported memory, and the memory that
   * stays reported ends below the volumes.  These are at the end of the memory, on IA32 at its end modulo 2^32.
   */
  lemma LayoutMeaning(x64: bool, bits: nat, f: Found, descriptors: nat, hobSize: nat)
    requires Roomy(x64, f) && descriptors <= MAX_DESCRIPTORS && LaidOut(x64, bits, f, descriptors, hobSize).Some?
    requires InOrder(LaidOut(x64, bits, f, descriptors, hobSize).value)
    ensures var l := LaidOut(x64, bits, f, descriptors, hobSize).value;
      && f.start <= l.memoryBottom
      && l.memoryBottom + CONSUMED_MEMORY == l.memoryTop
      && l.stack + STACK_SIZE == l.memoryTop
      && l.memoryTop + NV_STORAGE_FVB_SIZE == l.ftw
      && l.ftw + NV_FTW_FVB_SIZE == TopOf(x64, f.start + f.length) <= f.start + f.length
      && l.freeTop + descriptors * DESCRIPTOR_SIZE <= l.tables
      && l.aboveStart == f.start && l.aboveStart + l.aboveLength == l.memoryTop
      && l.aboveLength <= f.length && l.aboveLength % PAGE == 0
      && l.memoryTop % PAGE == l.stack % PAGE == l.freeTop % PAGE == 0
  {
    var l := LaidOut(x64, bits, f, descriptors, hobSize).value;
    RoomyFields(x64, bits, f, descriptors, hobSize, l);
    CopyBelowTables(x64, l.tables, descriptors);
  }

  lemma RoomyFields(x64: bool, bits: nat, f: Found, descriptors: nat, hobSize: nat, l: Layout)
    requires Roomy(x64, f) && LaidOut(x64, bits, f, descriptors, hobSize) == Some(l)
    ensures NV_STORAGE_FVB_SIZE == 0x10000 && NV_FTW_FVB_SIZE == 0x20000
    ensures var top := TopOf(x64, f.start + f.length);
      && top <= f.start + f.length && (x64 || top <= GB4)
      && var nv := top - 0x30000;
      && l.memoryBottom == nv - CONSUMED_MEMORY && l.stack == nv - STACK_SIZE
      && l.memoryTop == nv && l.ftw == nv + 0x10000
      && nv % PAGE == 0 && (nv - STACK_SIZE) % PAGE == 0 && f.start + CONSUMED_MEMORY <= nv < TWO64 - 0x30000
      && l.aboveStart == f.start && l.aboveLength == nv - f.start && l.aboveLength % PAGE == 0
      && l.freeTop == PageDown(UintN(x64, l.tables - descriptors * DESCRIPTOR_SIZE))
  {
    LaidOutRoomy(x64, bits, f, descriptors, hobSize);
    RoomyTop(x64, f, TopOf(x64, f.start + f.length));
  }

  lemma RoomyTop(x64: bool, f: Found, top: nat)
    requires Roomy(x64, f) && top == TopOf(x64, f.start + f.length)
    ensures NV_STORAGE_FVB_SIZE == 0x10000 && NV_FTW_FVB_SIZE == 0x20000
    ensures 0x30000 + f.start < top <= f.start + f.length && (x64 || top <= GB4)
    ensures (top - 0x30000) % PAGE == (top - 0x30000 - STACK_SIZE) % PAGE == (top - 0x30000 - f.start) % PAGE == 0
  {
    TopOfPages(x64, f.start + f.length);
    PageDifference(top, 0x30000);
    PageDifference(top - 0x30000, STACK_SIZE);
    PageDifference(top - 0x30000, f.start);
  }

  lemma PageDifference(a: nat, b: nat)
    requires a % PAGE == 0 && b % PAGE == 0
    ensures (a - b) % PAGE == 0
  {
  }

  lemma TablesFit(x64: bool, nv: nat, stack: nat, size: nat, descriptors: nat, hobSize: nat)
    requires nv % PAGE == 0 && stack == nv - STACK_SIZE && nv < WordRange(x64) && CONSUMED_MEMORY + MB <= nv
    requires descriptors <= MAX_DESCRIPTORS && hobSize <= MB
    ensures size + 2 * PAGE <= stack ==>
      var freeTop := PageDown(UintN(x64, stack - size - descriptors * DESCRIPTOR_SIZE));
      && freeTop <= stack - size
      && (size <= 65 * MB ==> U64(nv - CONSUMED_MEMORY + hobSize) <= freeTop)
      && (size >= 128 * MB ==> freeTop < nv - CONSUMED_MEMORY)
  {
  }

  // Without page tables the pointer wraps around.
  lemma NoTables(stack: nat, descriptors: nat)
    requires descriptors <= MAX_DESCRIPTORS && PAGE <= stack < TWO64 - 2 * PAGE
    ensures var freeTop := PageDown(U64(0 - descriptors * DESCRIPTOR_SIZE)); freeTop == 0 || freeTop > stack
  {
    Minus64(0, descriptors * DESCRIPTOR_SIZE);
  }

  // What X64 asks of the processor and of memory that ends at `end`
  predicate TablesInPlace(bits: nat, end: nat) {
    && 21 <= bits <= 44
    && TablePages64(bits) * PAGE + 128 * MB <= end - NV_STORAGE_FVB_SIZE - NV_FTW_FVB_SIZE - STACK_SIZE
  }

  /**
   * Exactly when is it in order, given room?  On IA32 always; on X64 when the processor reports 21 to 44 physical
   * address bits and the size of the page tables plus 128 MB is at most the address of the stack's bottom.
   * With more bits the page tables outgrow the 80 MB set aside, or there are none.
   */
  lemma InOrderIff(x64: bool, bits: nat, f: Found, descriptors: nat, hobSize: nat)
    requires Roomy(x64, f) && bits < 256 && descriptors <= MAX_DESCRIPTORS && hobSize <= MB
    ensures var r := LaidOut(x64, bits, f, descriptors, hobSize);
      r.Some? && InOrder(r.value) <==> (x64 ==> TablesInPlace(bits, f.start + f.length))
  {
    var nv := TopOf(x64, f.start + f.length) - 0x30000;
    RoomyTop(x64, f, nv + 0x30000);
    InOrderBy(x64, bits, f, descriptors, hobSize, nv);
    if x64 {
      TablesFit64(bits, nv, descriptors, hobSize);
    } else {
      TablesFit(false, nv, nv - STACK_SIZE, 2 * PAGE, descriptors, hobSize);
    }
  }

  // What the order comes down to
  lemma InOrderBy(x64: bool, bits: nat, f: Found, descriptors: nat, hobSize: nat, nv: nat)
    requires Roomy(x64, f) && nv == TopOf(x64, f.start + f.length) - 0x30000
    ensures nv % PAGE == 0 && CONSUMED_MEMORY + MB <= nv < WordRange(x64) - 0x30000 + 1
    ensures var r, t, bottom := LaidOut(x64, bits, f, descriptors, hobSize), PageTables(x64, nv - STACK_SIZE, bits),
          nv - CONSUMED_MEMORY;
      r.Some? && InOrder(r.value) <==>
        t.At? && bottom <= U64(bottom + hobSize)
              <= PageDown(UintN(x64, t.base - descriptors * DESCRIPTOR_SIZE)) <= t.base <= nv - STACK_SIZE
  {
    LaidOutRoomy(x64, bits, f, descriptors, hobSize);
    RoomyTop(x64, f, nv + 0x30000);
  }

  lemma TablesFit64(bits: nat, nv: nat, descriptors: nat, hobSize: nat)
    requires nv % PAGE == 0 && nv < TWO64 - 0x30000 && CONSUMED_MEMORY + MB <= nv && bits < 256
    requires descriptors <= MAX_DESCRIPTORS && hobSize <= MB
    ensures var stack, bottom := nv - STACK_SIZE, nv - CONSUMED_MEMORY;
      var t := PageTables(true, stack, bits);
      (t.At? && var freeTop := PageDown(U64(t.base - descriptors * DESCRIPTOR_SIZE));
       bottom <= U64(bottom + hobSize) <= freeTop <= t.base <= stack)
      <==> 21 <= bits <= 44 && TablePages64(bits) * PAGE + 128 * MB <= stack
  {
    var stack := nv - STACK_SIZE;
    if Pml4Bits(bits) > 9 {
      NoTables(stack, descriptors);
    } else {
      TableSize(bits);
      TablesFit(true, nv, stack, TablePages64(bits) * PAGE, descriptors, hobSize);
    }
  }

  // In order, inside the memory it was cut from, and where pointers reach
  predicate InPlace(x64: bool, l: Layout, f: Found) {
    && InOrder(l) && l.memoryTop <= l.ftw && f.start <= l.memoryBottom
    && l.ftw + NV_FTW_FVB_SIZE <= f.start + f.length && (x64 || l.ftw + NV_FTW_FVB_SIZE <= GB4)
  }

  /**
   * Exactly when is everything inside the memory found, in order?  When the volumes and the consumed memory have room
   * between its start and its end, which on IA32 is taken modulo 2^32, and on X64 with the condition on the page
   * tables.
   */
  lemma InPlaceIff(x64: bool, bits: nat, f: Found, descriptors: nat, hobSize: nat)
    requires Sound4K(f) && bits < 256 && descriptors <= MAX_DESCRIPTORS && hobSize <= MB
    ensures var r := LaidOut(x64, bits, f, descriptors, hobSize);
      r.Some? && InPlace(x64, r.value, f) <==>
      && f.start > 0
      && f.start + CONSUMED_MEMORY + NV_STORAGE_FVB_SIZE + NV_FTW_FVB_SIZE <= TopOf(x64, f.start + f.length)
      && (x64 ==> TablesInPlace(bits, f.start + f.length))
  {
    var r := LaidOut(x64, bits, f, descriptors, hobSize);
    if Roomy(x64, f) {
      InOrderIff(x64, bits, f, descriptors, hobSize);
      if r.Some? && InOrder(r.value) {
        OrderInPlace(x64, bits, f, descriptors, hobSize, r.value);
      }
    } else if r.Some? {
      TooShort(x64, f, r.value, bits, descriptors, hobSize);
    }
  }

  lemma OrderInPlace(x64: bool, bits: nat, f: Found, descriptors: nat, hobSize: nat, l: Layout)
    requires Roomy(x64, f) && LaidOut(x64, bits, f, descriptors, hobSize) == Some(l) && InOrder(l)
    ensures InPlace(x64, l, f) && l.ftw + NV_FTW_FVB_SIZE == TopOf(x64, f.start + f.length)
    ensures l.stack + STACK_SIZE == l.memoryTop && l.memoryTop + NV_STORAGE_FVB_SIZE == l.ftw
  {
    RoomyFields(x64, bits, f, descriptors, hobSize, l);
  }

  // The fields of the layout of some memory, without a remainder
  lemma LaidOutFields(x64: bool, f: Found, l: Layout, bits: nat, descriptors: nat, hobSize: nat) returns (top: nat)
    requires Sound4K(f) && f.start > 0 && LaidOut(x64, bits, f, descriptors, hobSize) == Some(l)
    ensures NV_STORAGE_FVB_SIZE == 0x10000 && NV_FTW_FVB_SIZE == 0x20000
    ensures top == TopOf(x64, f.start + f.length) && 0 < top <= f.start + f.length && top <= WordRange(x64)
    ensures l.memoryTop == NvBelow(x64, top) < WordRange(x64)
    ensures l.memoryBottom == if l.memoryTop >= CONSUMED_MEMORY then l.memoryTop - CONSUMED_MEMORY
                              else TWO64 + l.memoryTop - CONSUMED_MEMORY
    ensures l.ftw == if l.memoryTop + 0x10000 < WordRange(x64) then l.memoryTop + 0x10000
                     else l.memoryTop + 0x10000 - WordRange(x64)
    ensures l.aboveStart == f.start
    ensures l.aboveLength == if f.start + f.length <= l.memoryTop then f.length
                             else if l.memoryTop >= f.start then l.memoryTop - f.start
                             else TWO64 + l.memoryTop - f.start
  {
    top := TopOf(x64, f.start + f.length);
    NvIs(x64, f, top);
    FieldsBy(x64, f, l, bits, descriptors, hobSize);
    Minus64(l.memoryTop, CONSUMED_MEMORY);
    PlusN(x64, l.memoryTop, 0x10000);
    Minus64(l.memoryTop, f.start);
  }

  lemma FieldsBy(x64: bool, f: Found, l: Layout, bits: nat, descriptors: nat, hobSize: nat)
    requires Sound4K(f) && LaidOut(x64, bits, f, descriptors, hobSize) == Some(l)
    ensures l.memoryTop == NvBase(x64, UintN(x64, U64(f.start + f.length)))
    ensures l.memoryBottom == U64(l.memoryTop - CONSUMED_MEMORY)
    ensures l.ftw == UintN(x64, l.memoryTop + NV_STORAGE_FVB_SIZE)
    ensures l.stack == U64(l.memoryTop - STACK_SIZE) && l.freeBottom == U64(l.memoryBottom + hobSize)
    ensures l.aboveStart == f.start
    ensures l.aboveLength == if f.start + f.length > l.memoryTop then U64(l.memoryTop - f.start) else f.length
  {
  }

  /** Memory that ends at or below 4 GB is laid out alike with pointers of 32 and 64 bits, but for the page tables. */
  lemma BelowGB4(bits: nat, f: Found, descriptors: nat, hobSize: nat, l: Layout, l': Layout)
    requires Sound4K(f) && 0 < f.start && f.start + f.length <= GB4
    requires LaidOut(false, bits, f, descriptors, hobSize) == Some(l)
    requires LaidOut(true, bits, f, descriptors, hobSize) == Some(l')
    ensures l == l'.(tables := l.tables, freeTop := l.freeTop)
  {
    var top := LaidOutFields(false, f, l, bits, descriptors, hobSize);
    var top' := LaidOutFields(true, f, l', bits, descriptors, hobSize);
    FieldsBy(false, f, l, bits, descriptors, hobSize);
    FieldsBy(true, f, l', bits, descriptors, hobSize);
    assert top == top' == f.start + f.length;
  }

  // In shorter memory the volumes or the HOBs have no place.
  lemma TooShort(x64: bool, f: Found, l: Layout, bits: nat, descriptors: nat, hobSize: nat)
    requires Sound4K(f) && !Roomy(x64, f) && LaidOut(x64, bits, f, descriptors, hobSize) == Some(l)
    ensures !InPlace(x64, l, f)
  {
    if f.start > 0 {
      var top := LaidOutFields(x64, f, l, bits, descriptors, hobSize);
    } else {
      FieldsBy(x64, f, l, bits, descriptors, hobSize);
      NvBaseIs(x64, WordRange(x64), 0);
    }
  }

  /**
   * IA32, memory that starts at or above 4 GB: the layout is put below it, and the length that stays reported wraps
   * around.
   */
  lemma StartsAboveGB4(bits: nat, f: Found, descriptors: nat, hobSize: nat)
    requires Sound4K(f) && f.start >= GB4
    ensures var r := LaidOut(false, bits, f, descriptors, hobSize);
      && r.Some? && var l := r.value;
      && l.memoryTop < GB4 <= l.aboveStart == f.start && !InPlace(false, l, f)
      && l.aboveLength == TWO64 - (f.start - l.memoryTop)
  {
    var l := LaidOut(false, bits, f, descriptors, hobSize).value;
    var top := LaidOutFields(false, f, l, bits, descriptors, hobSize);
  }

  /**
   * IA32, memory that ends not far above a multiple of 4 GB: the place of the HOBs wraps around, even if the memory
   * is long.
   */
  lemma EndsAboveGB4(bits: nat, f: Found, descriptors: nat, hobSize: nat)
    requires Sound4K(f) && f.start > 0 && 0x30000 <= U32(f.start + f.length) < 0x30000 + CONSUMED_MEMORY
    ensures var r := LaidOut(false, bits, f, descriptors, hobSize);
      r.Some? && r.value.memoryBottom > r.value.memoryTop && !InOrder(r.value)
  {
    var l := LaidOut(false, bits, f, descriptors, hobSize).value;
    var top := LaidOutFields(false, f, l, bits, descriptors, hobSize);
  }

  /** Two such ranges: 256 MB from 4 GB on, and from 1 MB to 4 GB and 16 MB. */
  lemma OutOfReach()
    ensures var high, long := Found(GB4, 256 * MB, 0, 0), Found(MB, GB4 + 15 * MB, 0, 0);
      && (forall bits: nat, descriptors: nat, hobSize: nat ::
            var r := LaidOut(false, bits, high, descriptors, hobSize); r.Some? && !InPlace(false, r.value, high))
      && (forall bits: nat, descriptors: nat, hobSize: nat ::
            var r := LaidOut(false, bits, long, descriptors, hobSize); r.Some? && !InOrder(r.value))
      && (forall bits: nat, descriptors: nat, hobSize: nat ::
            bits < 256 && descriptors <= MAX_DESCRIPTORS && hobSize <= MB && TablesInPlace(bits, GB4 + 16 * MB) ==>
            var r := LaidOut(true, bits, long, descriptors, hobSize); r.Some? && InPlace(true, r.value, long))
  {
    var high, long := Found(GB4, 256 * MB, 0, 0), Found(MB, GB4 + 15 * MB, 0, 0);
    OneTurn(GB4 + 16 * MB, TWO32);
    forall bits: nat, descriptors: nat, hobSize: nat
      ensures var r := LaidOut(false, bits, high, descriptors, hobSize); r.Some? && !InPlace(false, r.value, high)
    {
      StartsAboveGB4(bits, high, descriptors, hobSize);
    }
    forall bits: nat, descriptors: nat, hobSize: nat
      ensures var r := LaidOut(false, bits, long, descriptors, hobSize); r.Some? && !InOrder(r.value)
    {
      EndsAboveGB4(bits, long, descriptors, hobSize);
    }
    forall bits: nat, descriptors: nat, hobSize: nat
      | bits < 256 && descriptors <= MAX_DESCRIPTORS && hobSize <= MB && TablesInPlace(bits, GB4 + 16 * MB)
      ensures var r := LaidOut(true, bits, long, descriptors, hobSize); r.Some? && InPlace(true, r.value, long)
    {
      InPlaceIff(true, bits, long, descriptors, hobSize);
    }
  }

  // ---------- the HOB template, filled in by DxeInit ----------

  datatype Block = Block(base: nat, length: nat)
  // EfiMemoryTop, EfiMemoryBottom, EfiFreeMemoryTop, EfiFreeMemoryBottom
  datatype Phit = Phit(memoryTop: nat, memoryBottom: nat, freeTop: nat, freeBottom: nat)
  // bases of NvStorageFvb, NvStorage, NvFtwFvb, NvFtwWorking and NvFtwSpare
  datatype Volumes = Volumes(nv: nat, nvData: nat, ftw: nat, ftwWorking: nat, ftwSpare: nat)

  function VolumesAt(x64: bool, nv: nat): Volumes {
    var ftw := UintN(x64, nv + NV_STORAGE_FVB_SIZE);
    Volumes(nv, U64(nv + FV_HEADER_LENGTH), ftw, U64(ftw + FV_HEADER_LENGTH),
            UintN(x64, ftw + FV_HEADER_LENGTH + NV_FTW_WORKING_SIZE))
  }

  // The areas lie behind the headers of their volumes, one after the other and inside them.
  predicate AreasInside(v: Volumes) {
    && v.nv + FV_HEADER_LENGTH == v.nvData && v.nvData + 0x4000 <= v.ftw == v.nv + NV_STORAGE_FVB_SIZE
    && v.ftw + FV_HEADER_LENGTH == v.ftwWorking && v.ftwWorking + NV_FTW_WORKING_SIZE == v.ftwSpare
    && v.ftwSpare + NV_FTW_SPARE_SIZE <= v.ftw + NV_FTW_FVB_SIZE
  }

  lemma AreasInVolumes(x64: bool, nv: nat)
    requires nv + NV_STORAGE_FVB_SIZE + NV_FTW_FVB_SIZE <= WordRange(x64)
    ensures AreasInside(VolumesAt(x64, nv))
  {
  }

  // The volumes below a pointer, of which 0 stands for the end of the address space
  lemma NvFits(x64: bool, top: nat, base: nat)
    requires top < WordRange(x64) && base == NvBase(x64, top)
    ensures var end := if top == 0 then WordRange(x64) else top;
      NV_STORAGE_FVB_SIZE + NV_FTW_FVB_SIZE <= end ==>
        && base % PAGE == 0 && base + NV_STORAGE_FVB_SIZE + NV_FTW_FVB_SIZE <= end
        && end < base + NV_STORAGE_FVB_SIZE + NV_FTW_FVB_SIZE + PAGE
        && AreasInside(VolumesAt(x64, base))
  {
    var end := if top == 0 then WordRange(x64) else top;
    if NV_STORAGE_FVB_SIZE + NV_FTW_FVB_SIZE <= end {
      MinusN(x64, top, 0x30000);
      AreasInVolumes(x64, base);
    }
  }

  class HobTemplate {
    const x64: bool                    // pointers have 64 bits, not 32
    var lowLength: nat                 // MemoryFreeUnder1MB, from 0x86000
    var above: Found                   // MemoryAbove1MB and MemoryAbove4GB
    var bfv: Block
    var volumes: Volumes
    var stackBase: nat
    var memDesc: nat
    var phit: Phit
    var core: Block                    // DxeCore and MemoryDxeCore
    var allocation: Block              // MemoryAllocation

    /** PrepareHobMemory; `ebda` is the EBDA segment found in the BIOS data area */
    method PrepareHobMemory(ds: seq<Desc>, ebda: nat) returns (top: nat)
      requires ebda < 0x10000
      modifies this`lowLength, this`above
      ensures above == Collected(ds, 0, NOTHING) && top == UintN(x64, U64(above.start + above.length))
      ensures LowMemory(ebda, lowLength)
    {
      var ebdaAddress := ebda * 16;
      if ebdaAddress < 0x9a000 || ebdaAddress > LOW_END {
        ebdaAddress := LOW_END;
      }
      lowLength := ebdaAddress - LOW_START;
      above := NOTHING;
      var index := 0;
      while index < |ds|
        invariant 0 <= index <= |ds| && lowLength == ebdaAddress - LOW_START
        invariant Collected(ds, index, above) == Collected(ds, 0, NOTHING)
      {
        var d := ds[index];
        if d.start < MB {
          index := index + 1;
          continue;
        }
        if d.kind == CONVENTIONAL {
          if above.start == 0 {
            above := above.(start := d.start, length := U64(d.pages * PAGE));
          } else if U64(above.start + above.length) == d.start {
            above := above.(length := U64(above.length + d.pages * PAGE));
          }
        }
        if d.kind == RESERVED || d.kind >= ACPI_RECLAIM {
          index := index + 1;
          continue;
        }
        if d.kind == RUNTIME_CODE || d.kind == RUNTIME_DATA {
          assert above == Collected(ds, 0, NOTHING);
          break;
        }
        if d.start >= GB4 {
          if d.kind == CONVENTIONAL {
            if above.start4 == 0 {
              above := above.(start4 := d.start, length4 := U64(d.pages * PAGE));
            }
            if U64(above.start4 + above.length4) == d.start {
              above := above.(length4 := U64(above.length4 + d.pages * PAGE));
            }
          }
        }
        index := index + 1;
      }
      return UintN(x64, U64(above.start + above.length));
    }

    /** PrepareHobNvStorage: where the two volumes and the areas in them go; a top of 0 stands for the last address */
    method PrepareHobNvStorage(top: nat) returns (base: nat)
      requires top < WordRange(x64)
      modifies this`volumes
      ensures base == NvBase(x64, top) && volumes == VolumesAt(x64, base)
      ensures var end := if top == 0 then WordRange(x64) else top;
        NV_STORAGE_FVB_SIZE + NV_FTW_FVB_SIZE <= end ==>
          && base % PAGE == 0 && base + NV_STORAGE_FVB_SIZE + NV_FTW_FVB_SIZE <= end
          && end < base + NV_STORAGE_FVB_SIZE + NV_FTW_FVB_SIZE + PAGE
          && AreasInside(volumes)
    {
      base := PageDown(UintN(x64, top - NV_STORAGE_FVB_SIZE - NV_FTW_FVB_SIZE));
      var ftw := UintN(x64, base + NV_STORAGE_FVB_SIZE);
      volumes := Volumes(base, U64(base + FV_HEADER_LENGTH), ftw, U64(ftw + FV_HEADER_LENGTH),
                         UintN(x64, ftw + FV_HEADER_LENGTH + NV_FTW_WORKING_SIZE));
      NvFits(x64, top, base);
    }

    /** PrepareHobStack */
    method PrepareHobStack(top: nat) returns (bottom: nat)
      modifies this`stackBase
      ensures stackBase == U64(top - STACK_SIZE) && bottom == UintN(x64, stackBase)
      ensures STACK_SIZE <= top < WordRange(x64) ==>
        bottom == stackBase && bottom + STACK_SIZE == top && (top % PAGE == 0 ==> bottom % PAGE == 0)
    {
      stackBase := U64(top - STACK_SIZE);
      return UintN(x64, stackBase);
    }

    /** PrepareHobMemoryDescriptor */
    method PrepareHobMemoryDescriptor(top: nat, count: nat) returns (base: nat)
      modifies this`memDesc
      ensures base == memDesc == PageDown(UintN(x64, top - count * DESCRIPTOR_SIZE))
      ensures count * DESCRIPTOR_SIZE <= top < WordRange(x64) ==>
        base % PAGE == 0 && base + count * DESCRIPTOR_SIZE <= top < base + count * DESCRIPTOR_SIZE + PAGE
    {
      memDesc := UintN(x64, top - count * DESCRIPTOR_SIZE);
      memDesc := PageDown(memDesc);
      return memDesc;
    }

    /** PrepareHobPhit */
    method PrepareHobPhit(top: nat, freeTop: nat, hobSize: nat)
      modifies this`phit
      ensures phit == Phit(top, U64(top - CONSUMED_MEMORY), freeTop, U64(U64(top - CONSUMED_MEMORY) + hobSize))
      ensures CONSUMED_MEMORY <= top < TWO64 && hobSize <= CONSUMED_MEMORY ==>
        && phit.memoryBottom + CONSUMED_MEMORY == phit.memoryTop
        && phit.memoryBottom + hobSize == phit.freeBottom <= phit.memoryTop
    {
      var bottom := U64(top - CONSUMED_MEMORY);
      phit := Phit(top, bottom, freeTop, U64(bottom + hobSize));
    }

    /** CompleteHobGeneration */
    method CompleteHobGeneration()
      modifies this`allocation, this`above
      ensures allocation == Block(phit.freeTop, U64(stackBase - phit.freeTop))
      ensures above == if U64(old(above).start + old(above).length) > phit.memoryTop
                       then old(above).(length := U64(phit.memoryTop - old(above).start)) else old(above)
      ensures phit.freeTop <= stackBase < TWO64 ==>
        allocation.base == phit.freeTop && allocation.base + allocation.length == stackBase
      ensures old(above).start <= phit.memoryTop < TWO64 && old(above).start + old(above).length < TWO64 ==>
        && above.start == old(above).start
        && above.start + above.length == Min(old(above).start + old(above).length, phit.memoryTop)
    {
      allocation := Block(phit.freeTop, U64(stackBase - phit.freeTop));
      if U64(above.start + above.length) > phit.memoryTop {
        above := above.(length := U64(phit.memoryTop - above.start));
      }
    }

    ghost function State(tables: nat): Layout
      reads this
    {
      Layout(phit.memoryBottom, phit.freeBottom, phit.freeTop, tables, stackBase, phit.memoryTop, volumes.ftw,
             above.start, above.length)
    }

    // The stack lies below the volumes.
    ghost predicate Stacked()
      reads this
    {
      && volumes.ftw == UintN(x64, volumes.nv + NV_STORAGE_FVB_SIZE)
      && stackBase == U64(volumes.nv - STACK_SIZE)
    }

    // All memory from the top of free memory up to the stack is reported as allocated.
    ghost predicate ReservesUpToStack()
      reads this
    {
      allocation == Block(phit.freeTop, U64(stackBase - phit.freeTop))
    }

    /** DxeInit up to the jump into the DXE core; false where it hangs */
    method DxeInit(h: Handoff, ebda: nat, bits: nat, hobSize: nat) returns (done: bool, ghost tables: nat)
      requires ebda < 0x10000
      modifies this
      ensures var r := LaidOut(x64, bits, Collected(h.ds, 0, NOTHING), |h.ds|, hobSize);
        if done then r == Some(State(tables)) else r == None
      ensures LowMemory(ebda, lowLength)
      ensures done ==> volumes == VolumesAt(x64, phit.memoryTop)
      ensures done ==> ReservesUpToStack() && memDesc == phit.freeTop
      ensures var f := Collected(h.ds, 0, NOTHING); above.start4 == f.start4 && above.length4 == f.length4
      ensures done ==> bfv == Block(h.bfvBase, h.bfvSize)
      ensures done ==> core == Block(h.coreBase, UintN(x64, h.iplBase + h.iplSize - h.coreBase))
    {
      bfv := Block(h.bfvBase, h.bfvSize);
      var stackBottom := StackUnderVolumes(h.ds, ebda);
      var pageTables := PageTables(x64, stackBottom, bits);
      LaidOutBy(x64, bits, above, |h.ds|, hobSize, volumes.nv, pageTables);
      if pageTables == Hang {
        return false, 0;
      }
      HobsUnderTables(h, pageTables.base, hobSize);
      return true, pageTables.base;
    }

    // DxeInit, steps 2 to 3.2
    method StackUnderVolumes(ds: seq<Desc>, ebda: nat) returns (stackBottom: nat)
      requires ebda < 0x10000
      modifies this`lowLength, this`above, this`volumes, this`stackBase
      ensures above == Collected(ds, 0, NOTHING) && LowMemory(ebda, lowLength)
      ensures volumes.nv == NvBase(x64, UintN(x64, U64(above.start + above.length)))
      ensures volumes == VolumesAt(x64, volumes.nv)
      ensures Stacked() && stackBottom == UintN(x64, U64(volumes.nv - STACK_SIZE))
    {
      var memoryTopOnDescriptor := PrepareHobMemory(ds, ebda);
      var nvStorageBase := PrepareHobNvStorage(memoryTopOnDescriptor);
      stackBottom := PrepareHobStack(nvStorageBase);
    }

    // DxeInit, steps 3.4 to the end
    method HobsUnderTables(h: Handoff, tables: nat, hobSize: nat)
      requires Stacked()
      modifies this`memDesc, this`phit, this`core, this`allocation, this`above
      ensures State(tables) == LaidOutAbove(x64, volumes.nv, tables, old(above), |h.ds|, hobSize)
      ensures volumes.nv == phit.memoryTop && ReservesUpToStack() && memDesc == phit.freeTop
      ensures above.start4 == old(above.start4) && above.length4 == old(above.length4)
      ensures core == Block(h.coreBase, UintN(x64, h.iplBase + h.iplSize - h.coreBase))
    {
      ghost var bottom := U64(volumes.nv - CONSUMED_MEMORY);
      var memoryDescriptor := PrepareHobMemoryDescriptor(tables, |h.ds|);
      PrepareHobPhit(volumes.nv, memoryDescriptor, hobSize);
      assert phit == Phit(volumes.nv, bottom, memoryDescriptor, U64(bottom + hobSize));
      core := Block(h.coreBase, UintN(x64, h.iplBase + h.iplSize - h.coreBase));
      CompleteHobGeneration();
    }
  }

  /**
   * The whole boot: with everything loaded from the highest free memory and a layout in order, the
   * memory finally reported above 1 MB is free memory below the NV volume, none of it belongs to the
   * firmware volume, DxeIpl or DxeCore, and the one length DxeInit reports covers both images exactly.
   */
  lemma BootMeaning(ds: seq<Desc>, k: nat, bfvPages: nat, ipl: Plan, core: Plan, h: Handoff, l: Layout,
                    x64: bool, bits: nat, hobSize: nat)
    requires WellFormed(ds) && Highest(ds, k) && Holds(ds[k], bfvPages, ipl, core)
    requires HandedOff(ds, bfvPages, ipl, core) == Some(h) && |h.ds| <= MAX_DESCRIPTORS
    requires forall j :: 0 <= j < |h.ds| ==> h.ds[j].start + h.ds[j].pages * PAGE < TWO64
    requires Roomy(x64, Collected(h.ds, 0, NOTHING))
    requires LaidOut(x64, bits, Collected(h.ds, 0, NOTHING), |h.ds|, hobSize) == Some(l) && InOrder(l)
    ensures FreeRange(h.ds, l.aboveStart, l.aboveLength) && l.aboveStart + l.aboveLength == l.memoryTop
    ensures forall p: nat :: Has(h.ds, CONVENTIONAL, p) ==> !(h.coreBase / PAGE <= p < (h.bfvBase + h.bfvSize) / PAGE)
    ensures UintN(x64, h.iplBase + h.iplSize - h.coreBase) == h.coreSize + h.iplSize
  {
    LoadedIsNotFree(ds, k, bfvPages, ipl, core, h);
    CollectedIsFree(h.ds, 0, NOTHING);
    ReportedIsFree(h.ds, Collected(h.ds, 0, NOTHING), l, x64, bits, hobSize);
  }

  /**
   * The volumes, the stack, the tables and the HOBs are stacked inside free memory, and that memory meets none of what
   * was loaded either.
   */
  lemma BootRegions(ds: seq<Desc>, k: nat, bfvPages: nat, ipl: Plan, core: Plan, h: Handoff, f: Found, l: Layout,
                    x64: bool, bits: nat, hobSize: nat)
    requires WellFormed(ds) && Highest(ds, k) && Holds(ds[k], bfvPages, ipl, core)
    requires HandedOff(ds, bfvPages, ipl, core) == Some(h) && |h.ds| <= MAX_DESCRIPTORS
    requires forall j :: 0 <= j < |h.ds| ==> h.ds[j].start + h.ds[j].pages * PAGE < TWO64
    requires f == Collected(h.ds, 0, NOTHING) && Roomy(x64, f)
    requires LaidOut(x64, bits, f, |h.ds|, hobSize) == Some(l) && InOrder(l)
    ensures InPlace(x64, l, f) && l.ftw + NV_FTW_FVB_SIZE == TopOf(x64, f.start + f.length)
    ensures l.stack + STACK_SIZE == l.memoryTop && l.memoryTop + NV_STORAGE_FVB_SIZE == l.ftw
    ensures forall p: nat :: f.start / PAGE <= p < (f.start + f.length) / PAGE ==>
      Has(h.ds, CONVENTIONAL, p) && !(h.coreBase / PAGE <= p < (h.bfvBase + h.bfvSize) / PAGE)
  {
    LoadedIsNotFree(ds, k, bfvPages, ipl, core, h);
    CollectedIsFree(h.ds, 0, NOTHING);
    OrderInPlace(x64, bits, f, |h.ds|, hobSize, l);
    MeetsNothing(h.ds, f.start, f.length, h.coreBase / PAGE, (h.bfvBase + h.bfvSize) / PAGE);
  }

  lemma MeetsNothing(ds: seq<Desc>, start: nat, length: nat, low: nat, high: nat)
    requires FreeRange(ds, start, length)
    requires forall p: nat :: Has(ds, CONVENTIONAL, p) ==> !(low <= p < high)
    ensures forall p: nat :: start / PAGE <= p < (start + length) / PAGE ==>
      Has(ds, CONVENTIONAL, p) && !(low <= p < high)
  {
    forall p: nat | start / PAGE <= p < (start + length) / PAGE
      ensures Has(ds, CONVENTIONAL, p) && !(low <= p < high)
    {
      assert Has(ds, CONVENTIONAL, p);
    }
  }

  lemma LoadedIsNotFree(ds: seq<Desc>, k: nat, bfvPages: nat, ipl: Plan, core: Plan, h: Handoff)
    requires WellFormed(ds) && Highest(ds, k) && Holds(ds[k], bfvPages, ipl, core)
    requires HandedOff(ds, bfvPages, ipl, core) == Some(h)
    ensures WellFormed(h.ds) && h.iplBase + h.iplSize - h.coreBase == h.coreSize + h.iplSize < TWO32
    ensures forall p: nat :: Has(h.ds, CONVENTIONAL, p) ==> !(h.coreBase / PAGE <= p < (h.bfvBase + h.bfvSize) / PAGE)
  {
    HandoffIsContiguous(ds, k, bfvPages, ipl, core);
  }

  lemma ReportedIsFree(ds: seq<Desc>, f: Found, l: Layout, x64: bool, bits: nat, hobSize: nat)
    requires Reported(ds, f) && Roomy(x64, f) && |ds| <= MAX_DESCRIPTORS
    requires LaidOut(x64, bits, f, |ds|, hobSize) == Some(l) && InOrder(l)
    ensures FreeRange(ds, l.aboveStart, l.aboveLength) && l.aboveStart + l.aboveLength == l.memoryTop
  {
    LayoutMeaning(x64, bits, f, |ds|, hobSize);
    FreeBelow(ds, f.start, f.length, l.aboveLength);
  }

  lemma FreeBelow(ds: seq<Desc>, start: nat, length: nat, less: nat)
    requires FreeRange(ds, start, length) && less <= length && less % PAGE == 0
    ensures FreeRange(ds, start, less)
  {
  }
}

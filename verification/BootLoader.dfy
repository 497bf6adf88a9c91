/**
 * The allocations of the boot loader (EfiLdr/EfiLoader.c and EfiLdr/PeLoader.c): the firmware volume,
 * then the DxeIpl image and its fixup log, then the DxeCore image and its fixup log.
 *
 * Later code takes for granted that these blocks lie directly below each other: the PE loader reports
 * an image and its log as one range, and DxeInit reports everything from DxeCore to the end of DxeIpl
 * as one range.  Here it is proved when that is so.
 */
module BootLoader {
  import opened MachineWords
  import opened Wrappers
  import opened MemoryMap
  import opened DescriptorTable


  // What loading an image asks for: its pages and, if it has to be relocated, the pages of its fixup log.
  datatype Plan = Plan(pages: nat, fixup: Option<nat>)

  function LogPages(p: Plan): nat { if p.fixup.Some? then p.fixup.value else 0 }
  function Need(p: Plan): nat { p.pages + LogPages(p) }

  // ImageBasePage and NoPages after loading
  datatype Image = Image(base: nat, pages: nat)

  datatype Loaded = Loaded(ds: seq<Desc>, image: Option<Image>)

  // EfiLdrPeCoffLoadPeImage and EfiLdrPeCoffLoadPeRelocate, as far as the map is concerned
  function LoadedImage(ds: seq<Desc>, plan: Plan): Loaded {
    var a := Allocated(ds, plan.pages, RUNTIME_CODE, MEMORY_WB);
    if a.address == 0 then Loaded(ds, None)
    else if plan.fixup == None then Loaded(a.map_, Some(Image(a.address, plan.pages)))
    else
      var f := Allocated(a.map_, plan.fixup.value, RUNTIME_DATA, MEMORY_WB);
      if f.address == 0 then Loaded(a.map_, None)
      else Loaded(f.map_, Some(Image(U64(a.address - plan.fixup.value * PAGE), plan.pages + plan.fixup.value)))
  }

  datatype Handoff = Handoff(ds: seq<Desc>, bfvBase: nat, bfvSize: nat, iplBase: nat, iplSize: nat, coreBase: nat,
                             coreSize: nat)

  // EfiLoader; None where it hangs
  function HandedOff(ds: seq<Desc>, bfvPages: nat, ipl: Plan, core: Plan): Option<Handoff> {
    var b := Allocated(ds, bfvPages, RUNTIME_DATA, MEMORY_WB);
    if b.address == 0 then None
    else
      var i := LoadedImage(b.map_, ipl);
      if i.image == None then None
      else
        var c := LoadedImage(i.ds, core);
        if c.image == None then None
        else Some(Handoff(c.ds, b.address, bfvPages * PAGE,
                          i.image.value.base, i.image.value.pages * PAGE,
                          c.image.value.base, c.image.value.pages * PAGE))
  }

  // Descriptor k is free memory between 1 MB and 4 GB, above all other free memory below 4 GB, and the
  // search gets as far as it.
  ghost predicate Highest(ds: seq<Desc>, k: nat) {
    && k < |ds| && ds[k].kind == CONVENTIONAL
    && ds[k].start >= MB && ds[k].pages > 0 && ds[k].start + ds[k].pages * PAGE <= GB4
    && Visible(ds, k)
    && forall j :: 0 <= j < |ds| && j != k && ds[j].kind == CONVENTIONAL && End(ds[j]) <= GB4 ==>
      ds[j].start < ds[k].start
  }

  // The pages [low, low + pages) of descriptor k and nothing else went from free to allocated.
  ghost predicate TookPages(before: seq<Desc>, after: seq<Desc>, low: nat, pages: nat) {
    && (forall p: nat :: low <= p < low + pages ==>
          && Has(before, CONVENTIONAL, p) && !Has(after, CONVENTIONAL, p)
          && (Has(after, RUNTIME_CODE, p) || Has(after, RUNTIME_DATA, p)))
    && (forall t: nat, p: nat :: !(low <= p < low + pages) ==> (Has(after, t, p) <==> Has(before, t, p)))
  }

  lemma AllocatedFromHighest(ds: seq<Desc>, k: nat, pages: nat, kind: nat, attr: nat)
    requires WellFormed(ds) && Highest(ds, k) && pages <= ds[k].pages
    requires kind == RUNTIME_CODE || kind == RUNTIME_DATA
    ensures var r := Allocated(ds, pages, kind, attr);
      var low := First(ds[k]) + ds[k].pages - pages;
      && r.address == low * PAGE && r.address > 0 && TookPages(ds, r.map_, low, pages)
      && WellFormed(r.map_) && |r.map_| <= |ds| + 1
      && (pages < ds[k].pages ==> Highest(r.map_, k) && r.map_[k] == ds[k].(pages := ds[k].pages - pages))
  {
    BestIsHighest(ds, 0, pages, -1);
    var b := Best(ds, 0, pages, -1);
    assert Eligible(ds[k], pages);
    assert b == k;
    AllocatedMeaning(ds, pages, kind, attr);
    var r := Allocated(ds, pages, kind, attr);
    assert First(Desc(kind, r.address, pages, attr)) == First(ds[k]) + ds[k].pages - pages;
    if pages < ds[k].pages {
      assert forall j :: 0 <= j < |ds| && j != k ==> r.map_[j] == ds[j];
      assert forall j :: 0 <= j < k ==> !Stops(ds[j]);
    }
  }

  lemma TookMore(a: seq<Desc>, b: seq<Desc>, c: seq<Desc>, low: nat, pages: nat, more: nat)
    requires more <= low && TookPages(a, b, low, pages) && TookPages(b, c, low - more, more)
    ensures TookPages(a, c, low - more, pages + more)
  {
  }

  lemma LoadedOf(ds: seq<Desc>, plan: Plan, a: Allocation, f: Allocation, low: nat)
    requires a == Allocated(ds, plan.pages, RUNTIME_CODE, MEMORY_WB) && a.address > 0
    requires plan.fixup.Some? && f == Allocated(a.map_, plan.fixup.value, RUNTIME_DATA, MEMORY_WB) && f.address > 0
    requires a.address - plan.fixup.value * PAGE == low * PAGE < TWO64
    ensures LoadedImage(ds, plan) == Loaded(f.map_, Some(Image(low * PAGE, Need(plan))))
  {
  }

  lemma ImageFromHighest(ds: seq<Desc>, k: nat, plan: Plan)
    requires WellFormed(ds) && Highest(ds, k) && Need(plan) <= ds[k].pages
    requires plan.fixup.Some? ==> plan.pages < ds[k].pages
    ensures var r := LoadedImage(ds, plan);
      var low := First(ds[k]) + ds[k].pages - Need(plan);
      && r.image == Some(Image(low * PAGE, Need(plan))) && TookPages(ds, r.ds, low, Need(plan))
      && WellFormed(r.ds) && |r.ds| <= |ds| + 2
      && (Need(plan) < ds[k].pages ==> Highest(r.ds, k) && r.ds[k] == ds[k].(pages := ds[k].pages - Need(plan)))
  {
    AllocatedFromHighest(ds, k, plan.pages, RUNTIME_CODE, MEMORY_WB);
    var a := Allocated(ds, plan.pages, RUNTIME_CODE, MEMORY_WB);
    if plan.fixup.Some? {
      AllocatedFromHighest(a.map_, k, plan.fixup.value, RUNTIME_DATA, MEMORY_WB);
      var f := Allocated(a.map_, plan.fixup.value, RUNTIME_DATA, MEMORY_WB);
      var low := First(ds[k]) + ds[k].pages - plan.pages;
      TookMore(ds, a.map_, f.map_, low, plan.pages, plan.fixup.value);
      LoadedOf(ds, plan, a, f, low - plan.fixup.value);
    }
  }

  // The blocks before the last one leave something of the descriptor.
  predicate Holds(d: Desc, bfvPages: nat, ipl: Plan, core: Plan) {
    && bfvPages + Need(ipl) + Need(core) <= d.pages
    && bfvPages + Need(ipl) + (if core.fixup.Some? then core.pages else 0) < d.pages
  }

  /**
   * If the highest free descriptor holds everything, the handoff describes adjacent blocks that fill its
   * top: volume, DxeIpl with its log, DxeCore with its log, and so the single length DxeInit computes.
   */
  lemma HandoffIsContiguous(ds: seq<Desc>, k: nat, bfvPages: nat, ipl: Plan, core: Plan)
    requires WellFormed(ds) && Highest(ds, k) && Holds(ds[k], bfvPages, ipl, core)
    ensures var r := HandedOff(ds, bfvPages, ipl, core);
      var top := ds[k].start + ds[k].pages * PAGE;
      && r.Some? && var h := r.value;
      && h.bfvBase + h.bfvSize == top
      && h.iplBase + h.iplSize == h.bfvBase
      && h.coreBase + h.coreSize == h.iplBase
      && ds[k].start <= h.coreBase
      && h.iplBase + h.iplSize - h.coreBase == h.coreSize + h.iplSize
      && TookPages(ds, h.ds, h.coreBase / PAGE, top / PAGE - h.coreBase / PAGE)
      && WellFormed(h.ds) && |h.ds| <= |ds| + 5
  {
    var top := First(ds[k]) + ds[k].pages;
    var b, i, c := ThreeBlocks(ds, k, bfvPages, ipl, core);
    HandoffOf(ds, bfvPages, ipl, core, b, i, c);
    var h := HandedOff(ds, bfvPages, ipl, core).value;
    assert ds[k].start + ds[k].pages * PAGE == top * PAGE;
    assert h.coreBase / PAGE == top - bfvPages - Need(ipl) - Need(core);
    assert top * PAGE / PAGE == top;
  }

  lemma HandoffOf(ds: seq<Desc>, bfvPages: nat, ipl: Plan, core: Plan, b: Allocation, i: Loaded, c: Loaded)
    requires b == Allocated(ds, bfvPages, RUNTIME_DATA, MEMORY_WB) && b.address > 0
    requires i == LoadedImage(b.map_, ipl) && i.image.Some?
    requires c == LoadedImage(i.ds, core) && c.image.Some?
    ensures HandedOff(ds, bfvPages, ipl, core)
         == Some(Handoff(c.ds, b.address, bfvPages * PAGE, i.image.value.base, i.image.value.pages * PAGE,
                         c.image.value.base, c.image.value.pages * PAGE))
  {
  }

  lemma ThreeBlocks(ds: seq<Desc>, k: nat, bfvPages: nat, ipl: Plan, core: Plan)
    returns (b: Allocation, i: Loaded, c: Loaded)
    requires WellFormed(ds) && Highest(ds, k) && Holds(ds[k], bfvPages, ipl, core)
    ensures b == Allocated(ds, bfvPages, RUNTIME_DATA, MEMORY_WB)
    ensures i == LoadedImage(b.map_, ipl) && c == LoadedImage(i.ds, core)
    ensures var top := First(ds[k]) + ds[k].pages;
      && b.address > 0 && b.address == (top - bfvPages) * PAGE
      && i.image.Some? && i.image.value.base == (top - bfvPages - Need(ipl)) * PAGE && i.image.value.pages == Need(ipl)
      && c.image.Some? && c.image.value.base == (top - bfvPages - Need(ipl) - Need(core)) * PAGE
      && c.image.value.pages == Need(core)
      && TookPages(ds, c.ds, top - bfvPages - Need(ipl) - Need(core), bfvPages + Need(ipl) + Need(core))
      && WellFormed(c.ds) && |c.ds| <= |ds| + 5
  {
    var top := First(ds[k]) + ds[k].pages;
    AllocatedFromHighest(ds, k, bfvPages, RUNTIME_DATA, MEMORY_WB);
    b := Allocated(ds, bfvPages, RUNTIME_DATA, MEMORY_WB);
    assert First(b.map_[k]) + b.map_[k].pages == top - bfvPages;
    i, c := TwoImages(b.map_, k, ipl, core);
    TookMore(ds, b.map_, c.ds, top - bfvPages, bfvPages, Need(ipl) + Need(core));
  }

  lemma TwoImages(ds: seq<Desc>, k: nat, ipl: Plan, core: Plan) returns (i: Loaded, c: Loaded)
    requires WellFormed(ds) && Highest(ds, k) && Holds(ds[k], 0, ipl, core)
    ensures i == LoadedImage(ds, ipl) && c == LoadedImage(i.ds, core)
    ensures var top := First(ds[k]) + ds[k].pages;
      && i.image.Some? && i.image.value.base == (top - Need(ipl)) * PAGE && i.image.value.pages == Need(ipl)
      && c.image.Some? && c.image.value.base == (top - Need(ipl) - Need(core)) * PAGE
      && c.image.value.pages == Need(core)
      && TookPages(ds, c.ds, top - (Need(ipl) + Need(core)), Need(ipl) + Need(core))
      && WellFormed(c.ds) && |c.ds| <= |ds| + 4
  {
    var top := First(ds[k]) + ds[k].pages;
    ImageFromHighest(ds, k, ipl);
    i := LoadedImage(ds, ipl);
    ImageFromHighest(i.ds, k, core);
    c := LoadedImage(i.ds, core);
    TookMore(ds, i.ds, c.ds, top - Need(ipl), Need(ipl), Need(core));
  }

  // ---------- the loader itself ----------

  method LoadPeImage(t: Table, plan: Plan) returns (image: Option<Image>)
    requires t.Valid() && |t.Contents()| + 2 <= t.desc.Length && WellFormed(t.Contents())
    modifies t, t.desc
    ensures t.Valid() && Loaded(t.Contents(), image) == LoadedImage(old(t.Contents()), plan)
    ensures |t.Contents()| <= |old(t.Contents())| + 2 && WellFormed(t.Contents())
  {
    AllocatedMeaning(t.Contents(), plan.pages, RUNTIME_CODE, MEMORY_WB);
    var imageBasePage := t.FindSpace(plan.pages, RUNTIME_CODE, MEMORY_WB);
    if imageBasePage == 0 {
      return None;
    }
    var noPages := plan.pages;
    if plan.fixup.Some? {
      var noFixupPages := plan.fixup.value;
      AllocatedMeaning(t.Contents(), noFixupPages, RUNTIME_DATA, MEMORY_WB);
      var fixupData := t.FindSpace(noFixupPages, RUNTIME_DATA, MEMORY_WB);
      if fixupData == 0 {
        return None;
      }
      noPages := noPages + noFixupPages;
      imageBasePage := U64(imageBasePage - noFixupPages * PAGE);
    }
    return Some(Image(imageBasePage, noPages));
  }

  /** EfiLoader: the map fits its 64 descriptors for every table of at most 29 entries. */
  method EfiLoader(es: seq<E820>, bfvPages: nat, ipl: Plan, core: Plan) returns (t: Table, h: Option<Handoff>)
    requires (forall e <- es :: Usable(e)) && AllFit([], es) && 2 * |es| + 5 <= MAX_DESCRIPTORS
    ensures h == HandedOff(Generated([], es), bfvPages, ipl, core)
    ensures t.Valid() && t.desc.Length == MAX_DESCRIPTORS && (h.Some? ==> h.value.ds == t.Contents())
  {
    GeneratedMeaning([], es);
    t := new Table(MAX_DESCRIPTORS);
    t.GenMemoryMap(es);
    AllocatedMeaning(t.Contents(), bfvPages, RUNTIME_DATA, MEMORY_WB);
    var bfvBase := t.FindSpace(bfvPages, RUNTIME_DATA, MEMORY_WB);
    if bfvBase == 0 {
      return t, None;
    }
    var dxeIpl := LoadPeImage(t, ipl);
    if dxeIpl == None {
      return t, None;
    }
    var dxeCore := LoadPeImage(t, core);
    if dxeCore == None {
      return t, None;
    }
    h := Some(Handoff(t.Contents(), bfvBase, bfvPages * PAGE, dxeIpl.value.base, dxeIpl.value.pages * PAGE,
                      dxeCore.value.base, dxeCore.value.pages * PAGE));
  }
}

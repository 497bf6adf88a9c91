/**
 * The merge of an image with its fixup log (EfiLdr/PeLoader.c).
 *
 * After relocating, the loader reports image and log as one range, assuming that the log was allocated just
 * below the image.  Here is exactly when that is so, as a condition on the map before the two allocations.
 */
module FixupMerge {
  import opened MachineWords
  import opened Wrappers
  import opened MemoryMap
  import opened BootLoader

  // The two allocations of an image that has to be relocated
  function ImageBlock(ds: seq<Desc>, pages: nat): Allocation { Allocated(ds, pages, RUNTIME_CODE, MEMORY_WB) }

  function LogBlock(ds: seq<Desc>, pages: nat, fix: nat): Allocation {
    Allocated(ImageBlock(ds, pages).map_, fix, RUNTIME_DATA, MEMORY_WB)
  }

  predicate LogBelow(ds: seq<Desc>, pages: nat, fix: nat) {
    var a, f := ImageBlock(ds, pages).address, LogBlock(ds, pages, fix).address;
    a > 0 && f > 0 && f + fix * PAGE == a
  }

  // What is left of descriptor k holds the log and is above all other memory that could.
  ghost predicate RoomInSame(ds: seq<Desc>, k: nat, pages: nat, fix: nat)
    requires k < |ds| && pages < ds[k].pages
  {
    && fix <= ds[k].pages - pages && ds[k].start + (ds[k].pages - pages) * PAGE > MB
    && forall j :: 0 <= j < |ds| && j != k && Eligible(ds[j], fix) && Visible(ds, j) ==> ds[j].start < ds[k].start
  }

  // The image uses up descriptor k, which ends later searches: the highest memory listed before it that holds the log
  // must end where k starts.
  ghost predicate RoomBefore(ds: seq<Desc>, k: nat, fix: nat)
    requires k < |ds|
  {
    exists b :: 0 <= b < k && HighestBefore(ds, k, b, fix) && First(ds[b]) + ds[b].pages == First(ds[k])
  }

  ghost predicate HighestBefore(ds: seq<Desc>, k: nat, b: nat, fix: nat)
    requires b < k < |ds|
  {
    Eligible(ds[b], fix) && forall j :: 0 <= j < k && Eligible(ds[j], fix) ==> ds[j].start <= ds[b].start
  }

  // The condition, for the descriptor k that the image is taken from
  ghost predicate Adjacent(ds: seq<Desc>, k: nat, pages: nat, fix: nat)
    requires k < |ds| && pages <= ds[k].pages
  {
    if pages < ds[k].pages then RoomInSame(ds, k, pages, fix) else RoomBefore(ds, k, fix)
  }

  // Two free descriptors with a page in common are the same.
  lemma SameFree(ds: seq<Desc>, i: nat, j: nat, p: nat)
    requires WellFormed(ds) && i < |ds| && j < |ds| && ds[i].kind == CONVENTIONAL
    requires Covers(ds[i], p) && Covers(ds[j], p)
    ensures i == j
  {
    assert i != j ==> Disjoint(ds[i], ds[j]);
  }

  // Where an allocation from the descriptor at index b ends
  lemma EndsAt(ds: seq<Desc>, b: nat, pages: nat, kind: nat)
    requires WellFormed(ds) && Best(ds, 0, pages, -1) == b
    ensures b < |ds| && Eligible(ds[b], pages)
    ensures Allocated(ds, pages, kind, MEMORY_WB).address > 0
    ensures Allocated(ds, pages, kind, MEMORY_WB).address + pages * PAGE == (First(ds[b]) + ds[b].pages) * PAGE
  {
    BestIsEligible(ds, 0, pages, -1);
  }

  // The search finds a descriptor that is above all others it could find.
  lemma BestIs(ds: seq<Desc>, pages: nat, k: nat)
    requires k < |ds| && Eligible(ds[k], pages) && Visible(ds, k)
    requires forall j :: 0 <= j < |ds| && j != k && Eligible(ds[j], pages) && Visible(ds, j) ==>
      ds[j].start < ds[k].start
    ensures Best(ds, 0, pages, -1) == k
  {
    BestIsHighest(ds, 0, pages, -1);
  }

  // The map after the image is taken from the end of descriptor k
  lemma ShrunkMap(ds: seq<Desc>, k: nat, pages: nat)
    requires WellFormed(ds) && Best(ds, 0, pages, -1) == k && k < |ds| && pages < ds[k].pages
    ensures var m := ImageBlock(ds, pages).map_;
      && WellFormed(m) && |m| == |ds| + 1
      && m[k] == ds[k].(pages := ds[k].pages - pages) && ds[k].kind == CONVENTIONAL && Visible(ds, k)
      && (forall j :: 0 <= j < |ds| && j != k ==> m[j] == ds[j])
      && m[|ds|].kind == RUNTIME_CODE
      && forall j :: 0 <= j < |ds| ==> (Visible(m, j) <==> Visible(ds, j))
  {
    BestIsHighest(ds, 0, pages, -1);
    AllocatedMeaning(ds, pages, RUNTIME_CODE, MEMORY_WB);
    var m := ImageBlock(ds, pages).map_;
    assert forall j :: 0 <= j < |ds| ==> Stops(m[j]) == Stops(ds[j]);
  }

  lemma SameDescriptorIff(ds: seq<Desc>, k: nat, pages: nat, fix: nat)
    requires WellFormed(ds) && Best(ds, 0, pages, -1) == k && k < |ds| && pages < ds[k].pages && 0 < fix
    ensures LogBelow(ds, pages, fix) <==> RoomInSame(ds, k, pages, fix)
  {
    ShrunkMap(ds, k, pages);
    EndsAt(ds, k, pages, RUNTIME_CODE);
    var m := ImageBlock(ds, pages).map_;
    if RoomInSame(ds, k, pages, fix) {
      BestIs(m, fix, k);
      EndsAt(m, k, fix, RUNTIME_DATA);
    }
    var b := Best(m, 0, fix, -1);
    if LogBelow(ds, pages, fix) && b >= 0 {
      EndsAt(m, b, fix, RUNTIME_DATA);
      SameFree(m, b, k, First(m[k]) + m[k].pages - 1);
      BestIsHighest(m, 0, fix, -1);
      forall j | 0 <= j < |ds| && j != k && Eligible(ds[j], fix) && Visible(ds, j) ensures ds[j].start < ds[k].start {
        if ds[j].start == ds[k].start {
          SameFree(m, j, k, First(m[k]));
        }
      }
    }
  }

  // The map after the image has used up descriptor k
  lemma UsedUpMap(ds: seq<Desc>, k: nat, pages: nat)
    requires WellFormed(ds) && Best(ds, 0, pages, -1) == k && k < |ds| && pages == ds[k].pages
    ensures var m := ImageBlock(ds, pages).map_;
      && WellFormed(m) && |m| == |ds| && m[k].kind == RUNTIME_CODE
      && (forall j :: 0 <= j < |ds| && j != k ==> m[j] == ds[j])
      && forall j :: 0 <= j < |ds| ==> (Visible(m, j) <==> j <= k)
  {
    BestIsHighest(ds, 0, pages, -1);
    AllocatedMeaning(ds, pages, RUNTIME_CODE, MEMORY_WB);
    var m := ImageBlock(ds, pages).map_;
    assert Stops(m[k]);
  }

  lemma OtherDescriptorIff(ds: seq<Desc>, k: nat, pages: nat, fix: nat)
    requires WellFormed(ds) && Best(ds, 0, pages, -1) == k && k < |ds| && pages == ds[k].pages && 0 < fix
    ensures LogBelow(ds, pages, fix) <==> RoomBefore(ds, k, fix)
  {
    UsedUpMap(ds, k, pages);
    EndsAt(ds, k, pages, RUNTIME_CODE);
    var m := ImageBlock(ds, pages).map_;
    var r := Best(m, 0, fix, -1);
    BestIsHighest(m, 0, fix, -1);
    if r >= 0 {
      EndsAt(m, r, fix, RUNTIME_DATA);
      assert HighestBefore(ds, k, r, fix);
      if LogBelow(ds, pages, fix) {
        assert First(ds[r]) + ds[r].pages == First(ds[k]);
      }
    }
    if b :| 0 <= b < k && HighestBefore(ds, k, b, fix) && First(ds[b]) + ds[b].pages == First(ds[k]) {
      assert Eligible(m[b], fix) && Visible(m, b);
      SameFree(ds, b, r, First(ds[b]));
    }
  }

  /** The log lies just below the image if and only if the map before leaves room for it there. */
  lemma LogBelowIff(ds: seq<Desc>, k: nat, pages: nat, fix: nat)
    requires WellFormed(ds) && Best(ds, 0, pages, -1) == k && 0 < fix
    ensures k < |ds| && pages <= ds[k].pages
    ensures LogBelow(ds, pages, fix) <==> Adjacent(ds, k, pages, fix)
  {
    BestIsEligible(ds, 0, pages, -1);
    if pages < ds[k].pages {
      SameDescriptorIff(ds, k, pages, fix);
    } else {
      OtherDescriptorIff(ds, k, pages, fix);
    }
  }

  // The page was free before and is not any more.
  ghost predicate Taken(before: seq<Desc>, after: seq<Desc>, p: nat) {
    Has(before, CONVENTIONAL, p) && !Has(after, CONVENTIONAL, p)
  }

  predicate Within(first: nat, pages: nat, p: nat) { first <= p < first + pages }

  ghost predicate ReportsWhatItTook(ds: seq<Desc>, r: Loaded)
    requires r.image.Some?
  {
    forall p: nat :: Within(r.image.value.base / PAGE, r.image.value.pages, p) <==> Taken(ds, r.ds, p)
  }

  // What the two allocations take
  lemma TakenBlocks(ds: seq<Desc>, pages: nat, fix: nat)
    requires WellFormed(ds) && ImageBlock(ds, pages).address > 0 && LogBlock(ds, pages, fix).address > 0
    ensures var a, f := ImageBlock(ds, pages).address, LogBlock(ds, pages, fix).address;
      && a % PAGE == 0 && f % PAGE == 0 && a + pages * PAGE <= GB4 && f + fix * PAGE <= GB4
      && forall p: nat :: Taken(ds, LogBlock(ds, pages, fix).map_, p) <==>
           Within(a / PAGE, pages, p) || Within(f / PAGE, fix, p)
  {
    var m := ImageBlock(ds, pages).map_;
    AllocatedMeaning(ds, pages, RUNTIME_CODE, MEMORY_WB);
    AllocatedMeaning(m, fix, RUNTIME_DATA, MEMORY_WB);
    var a := Desc(RUNTIME_CODE, ImageBlock(ds, pages).address, pages, MEMORY_WB);
    var f := Desc(RUNTIME_DATA, LogBlock(ds, pages, fix).address, fix, MEMORY_WB);
    forall p: nat ensures Taken(ds, LogBlock(ds, pages, fix).map_, p) <==> Covers(a, p) || Covers(f, p) {
      assert Has(m, CONVENTIONAL, p) <==> Has(ds, CONVENTIONAL, p) && !Covers(a, p);
    }
  }

  // Two blocks of pages make the one range [base, base + fix + pages) just if the second is right below the first.
  lemma OneRangeIff(a: nat, pages: nat, f: nat, fix: nat, base: nat)
    requires 0 < fix && a + pages <= GB4 / PAGE && f + fix <= GB4 / PAGE
    requires if a >= fix then base == a - fix else base > GB4 / PAGE
    ensures (forall p: nat :: Within(base, pages + fix, p) <==> Within(a, pages, p) || Within(f, fix, p)) <==>
      f + fix == a
  {
    assert Within(base, pages + fix, base);
    if f + fix == a {
      forall p: nat ensures Within(base, pages + fix, p) <==> Within(a, pages, p) || Within(f, fix, p) {
      }
    } else if a >= fix {
      assert Within(base, pages + fix, a - 1);
      assert !(Within(f, fix, base) && Within(f, fix, a - 1));
      assert !Within(a, pages, base) && !Within(a, pages, a - 1);
    } else {
      assert !Within(a, pages, base) && !Within(f, fix, base);
    }
  }

  // ImageBasePage - NoFixupPages * PAGE, in pages
  lemma BaseInPages(address: nat, fix: nat)
    requires address % PAGE == 0 && address <= GB4 && fix <= GB4 / PAGE
    ensures var base := U64(address - fix * PAGE) / PAGE;
      if address / PAGE >= fix then base == address / PAGE - fix else base > GB4 / PAGE
  {
    Minus64(address, fix * PAGE);
  }

  /**
   * The range that is reported for an image and its log is exactly the memory taken for them if and only if the map
   * before leaves room for the log just below the image.
   */
  lemma MergeIsRightIff(ds: seq<Desc>, k: nat, pages: nat, fix: nat)
    requires WellFormed(ds) && Best(ds, 0, pages, -1) == k && 0 < fix
    requires LoadedImage(ds, Plan(pages, Some(fix))).image.Some?
    ensures k < |ds| && pages <= ds[k].pages
    ensures ReportsWhatItTook(ds, LoadedImage(ds, Plan(pages, Some(fix)))) <==> Adjacent(ds, k, pages, fix)
  {
    LogBelowIff(ds, k, pages, fix);
    var r, a, f := Blocks(ds, pages, fix);
    OneRangeIff(a, pages, f, fix, r.image.value.base / PAGE);
    ReportsIff(ds, r, a, pages, f, fix);
  }

  // The pages of image and log, and what is reported of them
  lemma Blocks(ds: seq<Desc>, pages: nat, fix: nat) returns (r: Loaded, a: nat, f: nat)
    requires WellFormed(ds) && LoadedImage(ds, Plan(pages, Some(fix))).image.Some?
    ensures r == LoadedImage(ds, Plan(pages, Some(fix))) && r.image.value.pages == pages + fix
    ensures a + pages <= GB4 / PAGE && f + fix <= GB4 / PAGE && (LogBelow(ds, pages, fix) <==> f + fix == a)
    ensures if a >= fix then r.image.value.base / PAGE == a - fix else r.image.value.base / PAGE > GB4 / PAGE
    ensures forall p: nat :: Taken(ds, r.ds, p) <==> Within(a, pages, p) || Within(f, fix, p)
  {
    var image, log := ImageBlock(ds, pages).address, LogBlock(ds, pages, fix).address;
    TakenBlocks(ds, pages, fix);
    BaseInPages(image, fix);
    r, a, f := LoadedImage(ds, Plan(pages, Some(fix))), image / PAGE, log / PAGE;
    ReportedRange(ds, pages, fix);
  }

  lemma ReportsIff(ds: seq<Desc>, r: Loaded, a: nat, pages: nat, f: nat, fix: nat)
    requires r.image.Some? && r.image.value.pages == pages + fix
    requires forall p: nat :: Taken(ds, r.ds, p) <==> Within(a, pages, p) || Within(f, fix, p)
    requires var base := r.image.value.base / PAGE;
      (forall p: nat :: Within(base, pages + fix, p) <==> Within(a, pages, p) || Within(f, fix, p)) <==> f + fix == a
    ensures ReportsWhatItTook(ds, r) <==> f + fix == a
  {
    var base := r.image.value.base / PAGE;
    if p: nat :| !(Within(base, pages + fix, p) <==> Within(a, pages, p) || Within(f, fix, p)) {
      assert Taken(ds, r.ds, p) <==> Within(a, pages, p) || Within(f, fix, p);
    }
  }

  lemma ReportedRange(ds: seq<Desc>, pages: nat, fix: nat)
    requires ImageBlock(ds, pages).address > 0 && LogBlock(ds, pages, fix).address > 0
    ensures LoadedImage(ds, Plan(pages, Some(fix)))
         == Loaded(LogBlock(ds, pages, fix).map_,
                   Some(Image(U64(ImageBlock(ds, pages).address - fix * PAGE), pages + fix)))
  {
  }

  // Two descriptors; images of two pages with a log of one page
  const LOW: Desc := Desc(CONVENTIONAL, 0x100000, 2, MEMORY_WB)
  const HIGH: Desc := Desc(CONVENTIONAL, 0x1000000, 2, MEMORY_WB)
  const NEXT: Desc := Desc(CONVENTIONAL, 0xfff000, 1, MEMORY_WB)

  lemma TwoDescriptors(low: Desc)
    requires low == LOW || low == NEXT
    ensures WellFormed([low, HIGH]) && Best([low, HIGH], 0, 2, -1) == 1
    ensures LoadedImage([low, HIGH], Plan(2, Some(1))).image == Some(Image(0xfff000, 3))
    ensures ImageBlock([low, HIGH], 2).map_ == [low, HIGH.(kind := RUNTIME_CODE)]
    ensures Best([low, HIGH.(kind := RUNTIME_CODE)], 0, 1, -1) == 0
  {
    var ds := [low, HIGH];
    assert Best(ds, 1, 2, if low.pages >= 2 then 0 else -1) == 1;
    var m := ImageBlock(ds, 2).map_;
    assert m == [low, HIGH.(kind := RUNTIME_CODE)];
    assert Best(m, 1, 1, 0) == 0;
  }

  /**
   * The image uses up the highest descriptor and the log comes from memory far below: the range is wrong, and starts
   * on a page that belongs to nobody.
   */
  lemma LogElsewhere()
    ensures var r := LoadedImage([LOW, HIGH], Plan(2, Some(1)));
      && Highest([LOW, HIGH], 1)
      && r.image == Some(Image(0xfff000, 3)) && !ReportsWhatItTook([LOW, HIGH], r)
      && forall t :: !Has(r.ds, t, 0xfff)
  {
    TwoDescriptors(LOW);
    MergeIsRightIff([LOW, HIGH], 1, 2, 1);
    assert LogBlock([LOW, HIGH], 2, 1).map_
      == [LOW.(pages := 1), HIGH.(kind := RUNTIME_CODE), Desc(RUNTIME_DATA, 0x101000, 1, MEMORY_WB)];
  }

  /** The same with memory that ends where the highest descriptor starts: the range is right across both. */
  lemma LogAcross()
    ensures var r := LoadedImage([NEXT, HIGH], Plan(2, Some(1)));
      r.image == Some(Image(0xfff000, 3)) && ReportsWhatItTook([NEXT, HIGH], r)
  {
    TwoDescriptors(NEXT);
    MergeIsRightIff([NEXT, HIGH], 1, 2, 1);
    assert HighestBefore([NEXT, HIGH], 1, 0, 1);
  }
}

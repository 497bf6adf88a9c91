/**
 * The types and attributes in the boot memory map (EfiLdr/Support.c, EfiLdr/EfiLoader.c, EfiLdr/PeLoader.c): what a
 * page is described as, in the numbers of the UEFI specification (section 7.2, memory allocation services).
 */
module MapTypes {
  import opened MachineWords
  import opened Wrappers
  import opened MemoryMap
  import opened BootLoader

  // A page is described with a type and an attribute.
  ghost predicate HasAs(ds: seq<Desc>, kind: nat, attr: nat, p: nat) {
    exists i :: 0 <= i < |ds| && ds[i].kind == kind && ds[i].attr == attr && Covers(ds[i], p)
  }

  predicate Is(d: Desc, kind: nat, attr: nat, p: nat) { d.kind == kind && d.attr == attr && Covers(d, p) }

  lemma HasAsAppend(ds: seq<Desc>, x: Desc, kind: nat, attr: nat, p: nat)
    ensures HasAs(ds + [x], kind, attr, p) <==> HasAs(ds, kind, attr, p) || Is(x, kind, attr, p)
  {
    if i :| 0 <= i < |ds| && Is(ds[i], kind, attr, p) {
      assert (ds + [x])[i] == ds[i];
    }
    assert (ds + [x])[|ds|] == x;
  }

  lemma FreeAs(ds: seq<Desc>, k: nat, kind: nat, attr: nat, p: nat)
    requires Separate(ds) && k < |ds| && ds[k].kind == CONVENTIONAL && Covers(ds[k], p)
    ensures HasAs(ds, kind, attr, p) <==> kind == CONVENTIONAL && attr == ds[k].attr
  {
    if i :| 0 <= i < |ds| && Is(ds[i], kind, attr, p) {
      assert i != k ==> Disjoint(ds[k], ds[i]);
    }
    assert kind == CONVENTIONAL && attr == ds[k].attr ==> Is(ds[k], kind, attr, p);
  }

  lemma HasAsReplace(ds: seq<Desc>, k: nat, x: Desc, kind: nat, attr: nat, p: nat)
    requires k < |ds| && Separate(ds) && ds[k].kind == CONVENTIONAL && Contains(ds[k], x)
    ensures HasAs(ds[k := x], kind, attr, p) <==>
      if Covers(ds[k], p) then Is(x, kind, attr, p) else HasAs(ds, kind, attr, p)
  {
    var after := ds[k := x];
    if i :| 0 <= i < |after| && Is(after[i], kind, attr, p) {
      assert i != k ==> ds[i] == after[i] && Disjoint(ds[k], ds[i]);
    }
    if Covers(ds[k], p) {
      assert Is(x, kind, attr, p) ==> Is(after[k], kind, attr, p);
    } else if i :| 0 <= i < |ds| && Is(ds[i], kind, attr, p) {
      assert after[i] == ds[i];
    }
  }

  // After a range is added: its own pages, and all others as before
  predicate AddedSays(was: bool, n: Desc, kind: nat, attr: nat, p: nat) {
    if Covers(n, p) then (kind == n.kind && attr == n.attr) || (kind != CONVENTIONAL && was) else was
  }

  /** Adding a range gives its pages its type and its attribute; other pages keep both. */
  lemma AddedAs(ds: seq<Desc>, n: Desc, kind: nat, attr: nat, p: nat)
    requires WellFormed(ds) && Sound(n) && Fits(ds, n)
    ensures HasAs(Added(ds, n), kind, attr, p) <==> AddedSays(HasAs(ds, kind, attr, p), n, kind, attr, p)
  {
    if n.pages == 0 {
    } else if k :| 0 <= k < |ds| && ds[k].kind == CONVENTIONAL && Contains(ds[k], n) {
      forall j | 0 <= j < |ds| && j != k ensures Idle(ds[j], n) {
        assert Disjoint(ds[k], ds[j]);
        CarveIdle(ds[j], n);
      }
      ScanActs(ds, 0, |ds|, n, k);
      AddedInsideAs(ds, n, k, kind, attr, p);
    } else {
      forall j | 0 <= j < |ds| ensures Idle(ds[j], n) {
        CarveIdle(ds[j], n);
      }
      ScanIdle(ds, 0, |ds|, n);
      HasAsAppend(ds, n, kind, attr, p);
      if Covers(n, p) && kind == CONVENTIONAL {
        NotFreeThere(ds, n, attr, p);
      }
    }
  }

  lemma NotFreeThere(ds: seq<Desc>, n: Desc, attr: nat, p: nat)
    requires Fits(ds, n) && n.pages > 0 && Covers(n, p)
    requires forall k :: 0 <= k < |ds| && ds[k].kind == CONVENTIONAL ==> !Contains(ds[k], n)
    ensures !HasAs(ds, CONVENTIONAL, attr, p)
  {
    forall i | 0 <= i < |ds| && ds[i].kind == CONVENTIONAL ensures !Covers(ds[i], p) {
      assert Disjoint(ds[i], n);
    }
  }

  lemma AddedInsideAs(ds: seq<Desc>, n: Desc, k: nat, kind: nat, attr: nat, p: nat)
    requires WellFormed(ds) && Sound(n) && n.pages > 0
    requires k < |ds| && ds[k].kind == CONVENTIONAL && Contains(ds[k], n)
    ensures var c := Carve(ds[k], n);
      HasAs(ds[k := c.left] + c.rest + if c.exact then [] else [n], kind, attr, p)
      <==> AddedSays(HasAs(ds, kind, attr, p), n, kind, attr, p)
  {
    CarveActs(ds[k], n);
    var c := Carve(ds[k], n);
    var a := ds[k := c.left];
    HasAsReplace(ds, k, c.left, kind, attr, p);
    if c.exact {
      assert a + c.rest + [] == a;
    } else if c.rest == [] {
      assert a + c.rest + [n] == a + [n];
      HasAsAppend(a, n, kind, attr, p);
    } else {
      assert c.rest == [c.rest[0]];
      HasAsAppend(a, c.rest[0], kind, attr, p);
      HasAsAppend(a + c.rest, n, kind, attr, p);
    }
    if Covers(ds[k], p) {
      FreeAs(ds, k, kind, attr, p);
    }
  }

  // ---------- the map of an E820 table ----------

  // What an E820 entry that is not RAM (1) makes of its pages: ACPI reclaim memory (3) becomes type 9, write-back; ACPI
  // NVS (4) becomes type 10 and all others reserved, type 0, both uncached.
  predicate Makes(e: E820, kind: nat, attr: nat) {
    if e.kind == 1 then false
    else if e.kind == 3 then kind == 9 && attr == 8
    else if e.kind == 4 then kind == 10 && attr == 1
    else kind == 0 && attr == 1
  }

  ghost predicate MadeBy(es: seq<E820>, kind: nat, attr: nat, p: nat) {
    exists e <- es :: Makes(e, kind, attr) && Touches(e, p)
  }

  lemma RoundedAs(e: E820)
    ensures e.kind == 1 ==> Rounded(e).kind == 7 && Rounded(e).attr == 8
    ensures e.kind != 1 ==> Makes(e, Rounded(e).kind, Rounded(e).attr)
  {
  }

  lemma {:induction false} GeneratedAs(ds: seq<Desc>, es: seq<E820>, kind: nat, attr: nat, p: nat)
    requires WellFormed(ds) && AllFit(ds, es) && (forall e <- es :: Usable(e)) && kind != 7
    ensures HasAs(Generated(ds, es), kind, attr, p) <==> HasAs(ds, kind, attr, p) || MadeBy(es, kind, attr, p)
    decreases |es|
  {
    if es != [] {
      var n, rest := Rounded(es[0]), es[1..];
      RoundedMeaning(es[0]);
      RoundedAs(es[0]);
      AddedMeaning(ds, n);
      AddedAs(ds, n, kind, attr, p);
      GeneratedAs(Added(ds, n), rest, kind, attr, p);
      assert MadeBy(es, kind, attr, p) <==>
        (Makes(es[0], kind, attr) && Touches(es[0], p)) || MadeBy(rest, kind, attr, p);
    }
  }

  lemma {:induction false} FreeIsWriteBack(ds: seq<Desc>, es: seq<E820>, attr: nat, p: nat)
    requires WellFormed(ds) && AllFit(ds, es) && (forall e <- es :: Usable(e))
    requires HasAs(ds, 7, attr, p) ==> attr == 8
    ensures HasAs(Generated(ds, es), 7, attr, p) ==> attr == 8
    decreases |es|
  {
    if es != [] {
      var n := Rounded(es[0]);
      RoundedMeaning(es[0]);
      RoundedAs(es[0]);
      AddedMeaning(ds, n);
      AddedAs(ds, n, 7, attr, p);
      FreeIsWriteBack(Added(ds, n), es[1..], attr, p);
    }
  }

  lemma HasSome(ds: seq<Desc>, kind: nat, p: nat)
    ensures Has(ds, kind, p) <==> exists attr :: HasAs(ds, kind, attr, p)
  {
    if i :| 0 <= i < |ds| && ds[i].kind == kind && Covers(ds[i], p) {
      assert Is(ds[i], kind, ds[i].attr, p) && HasAs(ds, kind, ds[i].attr, p);
    }
  }

  /**
   * For every table of entries that share no byte: a page is free, type 7, if it lies wholly inside a RAM entry; it is
   * of type 9, 10 or 0 if an entry of type 3, 4 or of another one that is not RAM touches it; and it is described as
   * nothing else.  Types 7 and 9 are write-back (8), the others uncached (1).
   */
  lemma DisjointTableTypes(es: seq<E820>, kind: nat, attr: nat, p: nat)
    requires forall e <- es :: Usable(e)
    requires forall i, j :: 0 <= i < j < |es| ==> ShareNoByte(es[i], es[j])
    ensures HasAs(Generated([], es), kind, attr, p) <==>
      if kind == 7 then attr == 8 && exists e <- es :: e.kind == 1 && Inside(e, p)
      else if kind == 9 then attr == 8 && exists e <- es :: e.kind == 3 && Touches(e, p)
      else if kind == 10 then attr == 1 && exists e <- es :: e.kind == 4 && Touches(e, p)
      else if kind == 0 then attr == 1 && exists e <- es :: e.kind !in {1, 3, 4} && Touches(e, p)
      else false
  {
    DisjointTableMeaning(es);
    var m := Generated([], es);
    if kind == 7 {
      HasSome(m, 7, p);
      assert InRam(es, p) <==> exists e <- es :: e.kind == 1 && Inside(e, p);
      FreeIsWriteBack([], es, attr, p);
      if Has(m, 7, p) {
        var a :| HasAs(m, 7, a, p);
        FreeIsWriteBack([], es, a, p);
      }
    } else {
      GeneratedAs([], es, kind, attr, p);
    }
  }

  // ---------- what the loader takes ----------

  // The pages [low, low + pages) have this type, write-back, and all others are as before.
  ghost predicate Retyped(before: seq<Desc>, after: seq<Desc>, low: nat, pages: nat, kind: nat) {
    forall t: nat, a: nat, p: nat ::
      HasAs(after, t, a, p) <==> if low <= p < low + pages then t == kind && a == 8 else HasAs(before, t, a, p)
  }

  lemma AllocatedAs(ds: seq<Desc>, pages: nat, kind: nat, low: nat)
    requires WellFormed(ds) && kind != CONVENTIONAL
    requires Allocated(ds, pages, kind, MEMORY_WB).address == low * PAGE > 0
    ensures Retyped(ds, Allocated(ds, pages, kind, MEMORY_WB).map_, low, pages, kind)
  {
    var k := Best(ds, 0, pages, -1);
    BestIsEligible(ds, 0, pages, -1);
    var d, n := ds[k], Desc(kind, low * PAGE, pages, MEMORY_WB);
    assert First(n) == First(d) + d.pages - pages == low;
    var m := Allocated(ds, pages, kind, MEMORY_WB).map_;
    forall t: nat, a: nat, p: nat
      ensures HasAs(m, t, a, p) <==> if low <= p < low + pages then t == kind && a == 8 else HasAs(ds, t, a, p)
    {
      TakenAs(ds, k, n, t, a, p);
    }
  }

  lemma TakenAs(ds: seq<Desc>, k: nat, n: Desc, t: nat, a: nat, p: nat)
    requires WellFormed(ds) && k < |ds| && ds[k].kind == CONVENTIONAL && n.pages <= ds[k].pages && n.attr == MEMORY_WB
    requires n.start == ds[k].start + (ds[k].pages - n.pages) * PAGE && n.start % PAGE == 0
    requires First(n) == First(ds[k]) + ds[k].pages - n.pages
    ensures HasAs(AllocatedAt(ds, k, n.pages, n.kind, MEMORY_WB).map_, t, a, p) <==>
      if Covers(n, p) then t == n.kind && a == 8 else HasAs(ds, t, a, p)
  {
    var d := ds[k];
    if d.pages == n.pages {
      HasAsReplace(ds, k, d.(kind := n.kind, attr := MEMORY_WB), t, a, p);
    } else {
      var x := d.(pages := d.pages - n.pages);
      HasAsReplace(ds, k, x, t, a, p);
      HasAsAppend(ds[k := x], n, t, a, p);
    }
    if Covers(d, p) {
      FreeAs(ds, k, t, a, p);
    }
  }

  // A descriptor that an allocation can be taken from: free memory that ends above 1 MB and not above 4 GB
  predicate Candidate(d: Desc, pages: nat) {
    d.kind == 7 && d.start > 0 && d.pages >= pages && 0x10_0000 < d.start + d.pages * 4096 <= 0x1_0000_0000
  }

  // The search gets as far as descriptor j: none before it that ends above 1 MB is run-time services code or data.
  ghost predicate Searched(ds: seq<Desc>, j: nat)
    requires j < |ds|
  {
    forall i :: 0 <= i < j ==> ds[i].start + ds[i].pages * 4096 <= 0x10_0000 || (ds[i].kind != 5 && ds[i].kind != 6)
  }

  lemma SearchedIs(ds: seq<Desc>, pages: nat)
    requires forall i :: 0 <= i < |ds| ==> ds[i].start + ds[i].pages * 4096 < TWO64
    ensures forall j :: 0 <= j < |ds| ==>
      (Eligible(ds[j], pages) <==> Candidate(ds[j], pages)) && (Visible(ds, j) <==> Searched(ds, j))
  {
    forall j | 0 <= j < |ds|
      ensures (Eligible(ds[j], pages) <==> Candidate(ds[j], pages)) && (Visible(ds, j) <==> Searched(ds, j))
    {
      assert forall i :: 0 <= i < |ds| ==> End(ds[i]) == ds[i].start + ds[i].pages * 4096;
      assert Searched(ds, j) ==> forall i :: 0 <= i < j ==> !Stops(ds[i]);
      assert Visible(ds, j) ==> forall i :: 0 <= i < j ==> !Stops(ds[i]);
    }
  }

  ghost predicate IsHighest(ds: seq<Desc>, k: nat, pages: nat)
    requires k < |ds|
  {
    && Searched(ds, k) && Candidate(ds[k], pages)
    && forall j :: 0 <= j < |ds| && Searched(ds, j) && Candidate(ds[j], pages) ==> ds[j].start <= ds[k].start
  }

  /**
   * An allocation fails if and only if there is no candidate; otherwise it is the end of the candidate with the highest
   * start among those that the search gets to.
   */
  lemma AllocatedIsHighest(ds: seq<Desc>, pages: nat, kind: nat, attr: nat)
    requires forall i :: 0 <= i < |ds| ==> ds[i].start + ds[i].pages * 4096 < TWO64
    ensures var a := Allocated(ds, pages, kind, attr).address;
      && (a > 0 <==> exists j :: 0 <= j < |ds| && Searched(ds, j) && Candidate(ds[j], pages))
      && (a > 0 ==> exists k :: 0 <= k < |ds| && IsHighest(ds, k, pages)
                                && a + pages * 4096 == ds[k].start + ds[k].pages * 4096)
  {
    SearchedIs(ds, pages);
    BestIsHighest(ds, 0, pages, -1);
    var k := Best(ds, 0, pages, -1);
    if k >= 0 {
      assert IsHighest(ds, k, pages);
    }
  }

  // What a page is described as once an image, and its fixup log below it, have been taken from below `top`
  ghost predicate ImageSays(ds: seq<Desc>, plan: Plan, top: nat, t: nat, a: nat, p: nat) {
    if top - plan.pages <= p < top then t == 5 && a == 8
    else if top - Need(plan) <= p < top then t == 6 && a == 8
    else HasAs(ds, t, a, p)
  }

  lemma ImageTypes(ds: seq<Desc>, k: nat, plan: Plan, t: nat, a: nat, p: nat)
    requires WellFormed(ds) && Highest(ds, k) && Need(plan) <= ds[k].pages
    requires plan.fixup.Some? ==> plan.pages < ds[k].pages
    ensures HasAs(LoadedImage(ds, plan).ds, t, a, p) <==> ImageSays(ds, plan, First(ds[k]) + ds[k].pages, t, a, p)
  {
    var top := First(ds[k]) + ds[k].pages;
    AllocatedFromHighest(ds, k, plan.pages, RUNTIME_CODE, MEMORY_WB);
    AllocatedAs(ds, plan.pages, RUNTIME_CODE, top - plan.pages);
    if plan.fixup.Some? {
      var m := Allocated(ds, plan.pages, RUNTIME_CODE, MEMORY_WB).map_;
      AllocatedFromHighest(m, k, plan.fixup.value, RUNTIME_DATA, MEMORY_WB);
      AllocatedAs(m, plan.fixup.value, RUNTIME_DATA, top - Need(plan));
    }
  }

  /** Where the loader says that volume, DxeIpl and DxeCore are, each with its log, and how long. */
  lemma HandoffPlaces(ds: seq<Desc>, k: nat, bfvPages: nat, ipl: Plan, core: Plan)
    requires WellFormed(ds) && Highest(ds, k) && Holds(ds[k], bfvPages, ipl, core)
    ensures HandedOff(ds, bfvPages, ipl, core).Some?
    ensures var h, end := HandedOff(ds, bfvPages, ipl, core).value, ds[k].start + 4096 * ds[k].pages;
      && h.bfvSize == 4096 * bfvPages && h.bfvBase + h.bfvSize == end
      && h.iplSize == 4096 * (ipl.pages + if ipl.fixup.Some? then ipl.fixup.value else 0)
      && h.coreSize == 4096 * (core.pages + if core.fixup.Some? then core.fixup.value else 0)
      && h.iplBase + h.iplSize == h.bfvBase && h.coreBase + h.coreSize == h.iplBase
  {
    var b, i, c := ThreeBlocks(ds, k, bfvPages, ipl, core);
    HandoffOf(ds, bfvPages, ipl, core, b, i, c);
    assert ds[k].start == 4096 * First(ds[k]);
  }

  /**
   * What the loader takes from the highest free memory: run-time services data (6) for the firmware volume and the
   * fixup logs, run-time services code (5) for DxeIpl and DxeCore, write-back; all other pages keep type and attribute.
   */
  lemma HandoffTypes(ds: seq<Desc>, k: nat, bfvPages: nat, ipl: Plan, core: Plan, t: nat, a: nat, p: nat)
    requires WellFormed(ds) && Highest(ds, k) && Holds(ds[k], bfvPages, ipl, core)
    ensures HandedOff(ds, bfvPages, ipl, core).Some?
    ensures var top := First(ds[k]) + ds[k].pages;
      var below := top - bfvPages - Need(ipl);
      HasAs(HandedOff(ds, bfvPages, ipl, core).value.ds, t, a, p) <==>
        if top - bfvPages <= p < top then t == 6 && a == 8
        else if top - bfvPages - ipl.pages <= p < top then t == 5 && a == 8
        else if below <= p < top then t == 6 && a == 8
        else if below - core.pages <= p < top then t == 5 && a == 8
        else if below - Need(core) <= p < top then t == 6 && a == 8
        else HasAs(ds, t, a, p)
  {
    var top := First(ds[k]) + ds[k].pages;
    var b, i, c := ThreeBlocks(ds, k, bfvPages, ipl, core);
    HandoffOf(ds, bfvPages, ipl, core, b, i, c);
    AllocatedFromHighest(ds, k, bfvPages, RUNTIME_DATA, MEMORY_WB);
    AllocatedAs(ds, bfvPages, RUNTIME_DATA, top - bfvPages);
    assert First(b.map_[k]) + b.map_[k].pages == top - bfvPages;
    ImageFromHighest(b.map_, k, ipl);
    ImageTypes(b.map_, k, ipl, t, a, p);
    ImageTypes(i.ds, k, core, t, a, p);
  }
}

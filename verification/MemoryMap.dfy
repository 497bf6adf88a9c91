/**
 * The boot memory map (EfiLdr/Support.c): an array of page-granular descriptors, built from the
 * BIOS E820 table by carving each entry out of what is there, and then allocated from top-down.
 *
 * `Added`, `Generated` and `Allocated` say what the three routines leave in the array; the lemmas say
 * what that means page by page.
 */
module MemoryMap {
  import opened MachineWords

  const PAGE: nat := 4096
  const MB: nat := 0x100000
  const GB4: nat := 0x1_0000_0000
  const MAX_DESCRIPTORS: nat := 64

  // EFI_MEMORY_TYPE; the code compares these numbers
  const RESERVED: nat := 0
  const RUNTIME_CODE: nat := 5
  const RUNTIME_DATA: nat := 6
  const CONVENTIONAL: nat := 7
  const ACPI_RECLAIM: nat := 9
  const ACPI_NVS: nat := 10

  const MEMORY_UC: nat := 1
  const MEMORY_WB: nat := 8

  datatype Desc = Desc(kind: nat, start: nat, pages: nat, attr: nat)

  // ---------- reading a map page by page ----------

  function First(d: Desc): nat { d.start / PAGE }
  predicate Covers(d: Desc, p: nat) { First(d) <= p < First(d) + d.pages }

  ghost predicate Has(ds: seq<Desc>, kind: nat, p: nat) {
    exists i :: 0 <= i < |ds| && ds[i].kind == kind && Covers(ds[i], p)
  }

  predicate Sound(d: Desc) { d.start % PAGE == 0 && d.start + d.pages * PAGE <= TWO64 }

  predicate Disjoint(a: Desc, b: Desc) {
    a.pages == 0 || b.pages == 0 || First(a) + a.pages <= First(b) || First(b) + b.pages <= First(a)
  }

  predicate Contains(a: Desc, b: Desc) {
    First(a) <= First(b) && First(b) + b.pages <= First(a) + a.pages
  }

  // Free memory is described once: no conventional descriptor shares a page with another one.
  ghost predicate Separate(ds: seq<Desc>) {
    forall i, j :: 0 <= i < |ds| && 0 <= j < |ds| && i != j && ds[i].kind == CONVENTIONAL ==> Disjoint(ds[i], ds[j])
  }

  ghost predicate WellFormed(ds: seq<Desc>) {
    (forall i :: 0 <= i < |ds| ==> Sound(ds[i])) && Separate(ds)
  }

  // ---------- EfiAddMemoryDescriptor ----------

  datatype Carving = Carving(left: Desc, rest: seq<Desc>, exact: bool)

  // What the loop body does to one descriptor: what stays in its slot, what is appended, whether the loop ends.
  function Carve(d: Desc, n: Desc): Carving {
    if d.kind != CONVENTIONAL then Carving(d, [], false)
    else
      var temp := U64(U64(n.start - d.start) / PAGE + n.pages);
      if d.start < n.start && d.pages >= temp then
        Carving(d.(pages := U64(temp - n.pages)),
                if d.pages > temp
                then [Desc(CONVENTIONAL, U64(n.start + n.pages * PAGE), d.pages - temp, d.attr)] else [],
                false)
      else if d.start == n.start && d.pages == n.pages then Carving(d.(kind := n.kind, attr := n.attr), [], true)
      else if d.start == n.start && d.pages > n.pages then
        Carving(d.(pages := d.pages - n.pages, start := U64(d.start + n.pages * PAGE)), [], false)
      else Carving(d, [], false)
  }

  // The loop from index i on; `count` is the number of descriptors when it was entered.
  function Scan(ds: seq<Desc>, i: nat, count: nat, n: Desc): seq<Desc>
    requires i <= count <= |ds|
    decreases count - i
  {
    if i == count then ds + [n]
    else
      var c := Carve(ds[i], n);
      var next := ds[i := c.left] + c.rest;
      if c.exact then next else Scan(next, i + 1, count, n)
  }

  function Added(ds: seq<Desc>, n: Desc): seq<Desc> {
    if n.pages == 0 then ds else Scan(ds, 0, |ds|, n)
  }

  // The new range does not straddle the edge of a conventional descriptor; new conventional memory
  // overlaps nothing that is not conventional.
  ghost predicate Fits(ds: seq<Desc>, n: Desc) {
    forall i :: 0 <= i < |ds| ==>
      Disjoint(ds[i], n) || (if ds[i].kind == CONVENTIONAL then Contains(ds[i], n) else n.kind != CONVENTIONAL)
  }

  // Carving is idle on a descriptor that does not contain the new range.
  lemma CarveIdle(d: Desc, n: Desc)
    requires Sound(d) && Sound(n) && n.pages > 0
    requires d.kind == CONVENTIONAL ==> !Contains(d, n)
    ensures Carve(d, n) == Carving(d, [], false)
  {
  }

  // Where it does contain it, the slot keeps the part below (or, if there is none, above) the new range.
  lemma CarveActs(d: Desc, n: Desc)
    requires Sound(d) && Sound(n) && n.pages > 0 && d.kind == CONVENTIONAL && Contains(d, n)
    ensures Carve(d, n) ==
      var below, above := First(n) - First(d), First(d) + d.pages - First(n) - n.pages;
      var tail := Desc(CONVENTIONAL, n.start + n.pages * PAGE, above, d.attr);
      if below > 0 then Carving(d.(pages := below), if above > 0 then [tail] else [], false)
      else if above > 0 then Carving(tail, [], false)
      else Carving(n, [], true)
  {
    var below, above := First(n) - First(d), First(d) + d.pages - First(n) - n.pages;
    assert n.start == First(n) * PAGE && d.start == First(d) * PAGE;
    assert n.start - d.start == below * PAGE;
    if below > 0 {
      var temp := U64(U64(n.start - d.start) / PAGE + n.pages);
      assert U64(n.start - d.start) / PAGE == below;
      assert temp == below + n.pages;
      if above > 0 {
        assert U64(n.start + n.pages * PAGE) == n.start + n.pages * PAGE;
      }
    }
  }

  predicate Idle(d: Desc, n: Desc) { Carve(d, n) == Carving(d, [], false) }

  lemma {:induction false} ScanIdle(ds: seq<Desc>, i: nat, count: nat, n: Desc)
    requires i <= count <= |ds|
    requires forall j :: i <= j < count ==> Idle(ds[j], n)
    ensures Scan(ds, i, count, n) == ds + [n]
    decreases count - i
  {
    if i < count {
      assert ds[i := ds[i]] + [] == ds;
      ScanIdle(ds, i + 1, count, n);
    }
  }

  lemma {:induction false} ScanActs(ds: seq<Desc>, i: nat, count: nat, n: Desc, k: nat)
    requires i <= k < count <= |ds|
    requires forall j :: i <= j < count && j != k ==> Idle(ds[j], n)
    ensures var c := Carve(ds[k], n);
      Scan(ds, i, count, n) == ds[k := c.left] + c.rest + if c.exact then [] else [n]
    decreases count - i
  {
    var c := Carve(ds[k], n);
    if i < k {
      assert ds[i := ds[i]] + [] == ds;
      ScanActs(ds, i + 1, count, n, k);
    } else {
      var next := ds[k := c.left] + c.rest;
      if c.exact {
        assert next + [] == next;
      } else {
        forall j | k + 1 <= j < count ensures Idle(next[j], n) {
          assert next[j] == ds[j];
        }
        ScanIdle(next, k + 1, count, n);
      }
    }
  }

  lemma HasAppend(ds: seq<Desc>, x: Desc)
    ensures forall kind, p :: Has(ds + [x], kind, p) <==> Has(ds, kind, p) || (x.kind == kind && Covers(x, p))
  {
    forall kind, p ensures Has(ds + [x], kind, p) <==> Has(ds, kind, p) || (x.kind == kind && Covers(x, p)) {
      if Has(ds, kind, p) {
        var i :| 0 <= i < |ds| && ds[i].kind == kind && Covers(ds[i], p);
        assert (ds + [x])[i] == ds[i];
      }
      assert (ds + [x])[|ds|] == x;
    }
  }

  // Replacing a conventional descriptor changes only the pages of that descriptor.
  lemma HasReplace(ds: seq<Desc>, k: nat, x: Desc)
    requires k < |ds| && Separate(ds) && ds[k].kind == CONVENTIONAL && Contains(ds[k], x)
    ensures forall kind, p :: Has(ds[k := x], kind, p) <==>
      if Covers(ds[k], p) then x.kind == kind && Covers(x, p) else Has(ds, kind, p)
  {
    var after := ds[k := x];
    forall kind, p
      ensures Has(after, kind, p) <==> if Covers(ds[k], p) then x.kind == kind && Covers(x, p) else Has(ds, kind, p)
    {
      if Has(after, kind, p) {
        var i :| 0 <= i < |after| && after[i].kind == kind && Covers(after[i], p);
        assert i != k ==> ds[i] == after[i] && Disjoint(ds[k], ds[i]);
      }
      if Covers(ds[k], p) {
        assert Has(ds, CONVENTIONAL, p);
        assert x.kind == kind && Covers(x, p) ==> after[k].kind == kind && Covers(after[k], p);
      } else if Has(ds, kind, p) {
        var i :| 0 <= i < |ds| && ds[i].kind == kind && Covers(ds[i], p);
        assert after[i] == ds[i];
      }
    }
  }

  lemma WellFormedAppend(ds: seq<Desc>, x: Desc)
    requires WellFormed(ds) && Sound(x)
    requires forall i :: 0 <= i < |ds| && (ds[i].kind == CONVENTIONAL || x.kind == CONVENTIONAL) ==> Disjoint(ds[i], x)
    ensures WellFormed(ds + [x])
  {
  }

  lemma WellFormedReplace(ds: seq<Desc>, k: nat, x: Desc)
    requires WellFormed(ds) && Sound(x) && k < |ds| && ds[k].kind == CONVENTIONAL && Contains(ds[k], x)
    ensures WellFormed(ds[k := x])
  {
  }

  /**
   * Adding a range: it becomes memory of the new type and nothing else changes; conventional
   * descriptors stay apart, and at most two descriptors are used up.
   */
  lemma AddedMeaning(ds: seq<Desc>, n: Desc)
    requires WellFormed(ds) && Sound(n) && Fits(ds, n)
    ensures WellFormed(Added(ds, n)) && |Added(ds, n)| <= |ds| + 2
    ensures forall kind, p :: Has(Added(ds, n), kind, p) <==>
      if Covers(n, p) then kind == n.kind || (kind != CONVENTIONAL && Has(ds, kind, p)) else Has(ds, kind, p)
  {
    if n.pages == 0 {
    } else if k :| 0 <= k < |ds| && ds[k].kind == CONVENTIONAL && Contains(ds[k], n) {
      forall j | 0 <= j < |ds| && j != k ensures Idle(ds[j], n) {
        assert Disjoint(ds[k], ds[j]);
        CarveIdle(ds[j], n);
      }
      ScanActs(ds, 0, |ds|, n, k);
      CarveActs(ds[k], n);
      AddedInside(ds, n, k);
    } else {
      forall j | 0 <= j < |ds| ensures Idle(ds[j], n) {
        CarveIdle(ds[j], n);
      }
      ScanIdle(ds, 0, |ds|, n);
      HasAppend(ds, n);
      WellFormedAppend(ds, n);
    }
  }

  lemma AddedInside(ds: seq<Desc>, n: Desc, k: nat)
    requires WellFormed(ds) && Sound(n) && n.pages > 0
    requires k < |ds| && ds[k].kind == CONVENTIONAL && Contains(ds[k], n)
    ensures var c := Carve(ds[k], n);
      var r := ds[k := c.left] + c.rest + if c.exact then [] else [n];
      && WellFormed(r) && |r| <= |ds| + 2
      && forall kind, p :: Has(r, kind, p) <==>
           if Covers(n, p) then kind == n.kind || (kind != CONVENTIONAL && Has(ds, kind, p)) else Has(ds, kind, p)
  {
    CarveActs(ds[k], n);
    var c := Carve(ds[k], n);
    var a := ds[k := c.left];
    var r := a + c.rest + if c.exact then [] else [n];
    HasReplace(ds, k, c.left);
    WellFormedReplace(ds, k, c.left);
    if c.exact {
      assert r == a;
    } else if c.rest == [] {
      assert r == a + [n];
      HasAppend(a, n);
      WellFormedAppend(a, n);
    } else {
      var tail := c.rest[0];
      assert c.rest == [tail] && r == a + [tail] + [n];
      HasAppend(a, tail);
      WellFormedAppend(a, tail);
      HasAppend(a + [tail], n);
      WellFormedAppend(a + [tail], n);
    }
    forall kind, p
      ensures Has(r, kind, p) <==>
        if Covers(n, p) then kind == n.kind || (kind != CONVENTIONAL && Has(ds, kind, p)) else Has(ds, kind, p)
    {
      assert Covers(n, p) ==> Covers(ds[k], p);
      if c.rest != [] {
        assert Has(a + c.rest, kind, p) <==> Has(a, kind, p) || (kind == CONVENTIONAL && Covers(c.rest[0], p));
      }
      if Covers(ds[k], p) {
        FreeMemoryIsOnlyFree(ds, k, kind, p);
      } else {
        assert !Covers(n, p);
      }
    }
  }

  lemma FreeMemoryIsOnlyFree(ds: seq<Desc>, k: nat, kind: nat, p: nat)
    requires Separate(ds) && k < |ds| && ds[k].kind == CONVENTIONAL && Covers(ds[k], p)
    ensures Has(ds, kind, p) <==> kind == CONVENTIONAL
  {
    if Has(ds, kind, p) {
      var i :| 0 <= i < |ds| && ds[i].kind == kind && Covers(ds[i], p);
      assert i != k ==> Disjoint(ds[k], ds[i]);
    }
  }

  // A descriptor that carving leaves alone is still there afterwards.
  lemma {:induction false} ScanKeeps(ds: seq<Desc>, i: nat, count: nat, n: Desc, k: nat)
    requires i <= count <= |ds| && k < count
    requires i <= k ==> Idle(ds[k], n)
    ensures k < |Scan(ds, i, count, n)| && Scan(ds, i, count, n)[k] == ds[k]
    decreases count - i
  {
    if i < count {
      var c := Carve(ds[i], n);
      var next := ds[i := c.left] + c.rest;
      assert next[k] == ds[k];
      if !c.exact {
        ScanKeeps(next, i + 1, count, n, k);
      }
    }
  }

  /**
   * Carving really takes the range out of free memory if and only if the range does not straddle the
   * edge of a conventional descriptor (a BIOS entry that spans two of them is not taken out at all).
   */
  lemma CarvedOutIff(ds: seq<Desc>, n: Desc)
    requires WellFormed(ds) && Sound(n) && n.pages > 0 && n.kind != CONVENTIONAL
    ensures (forall p :: Covers(n, p) ==> !Has(Added(ds, n), CONVENTIONAL, p)) <==>
            (forall i :: 0 <= i < |ds| && ds[i].kind == CONVENTIONAL ==> Disjoint(ds[i], n) || Contains(ds[i], n))
  {
    if i :| 0 <= i < |ds| && ds[i].kind == CONVENTIONAL && !Disjoint(ds[i], n) && !Contains(ds[i], n) {
      CarveIdle(ds[i], n);
      ScanKeeps(ds, 0, |ds|, n, i);
      var p := if First(ds[i]) < First(n) then First(n) else First(ds[i]);
      assert Added(ds, n)[i].kind == CONVENTIONAL && Covers(Added(ds, n)[i], p) && Covers(n, p);
    } else {
      assert Fits(ds, n);
      AddedMeaning(ds, n);
    }
  }

  // ---------- GenMemoryMap ----------

  // Address Range Descriptor Structure, section 14.1 of ACPI 3.0
  datatype E820 = E820(base: nat, length: nat, kind: nat)

  predicate IsRam(e: E820) { e.kind == 1 }

  function KindOf(e: E820): nat {
    if e.kind == 1 then CONVENTIONAL
    else if e.kind == 3 then ACPI_RECLAIM
    else if e.kind == 4 then ACPI_NVS
    else RESERVED
  }

  function AttributeOf(e: E820): nat { if e.kind == 1 || e.kind == 3 then MEMORY_WB else MEMORY_UC }

  function Rounded(e: E820): Desc {
    if IsRam(e) then
      var base := if e.base % PAGE != 0 then U64((e.base / PAGE + 1) * PAGE) else e.base;
      var length := if e.base % PAGE != 0 then U64(e.length + e.base % PAGE - PAGE) else e.length;
      Desc(KindOf(e), base, length / PAGE, AttributeOf(e))
    else
      var length := U64(e.length + e.base % PAGE);
      var rounded := if length % PAGE != 0 then U64((length / PAGE + 1) * PAGE) else length;
      Desc(KindOf(e), e.base / PAGE * PAGE, rounded / PAGE, AttributeOf(e))
  }

  // The entry ends at least a page below 2^64.
  predicate InSpace(e: E820) { e.base + e.length <= TWO64 - PAGE }

  predicate Inside(e: E820, p: nat) { e.base <= p * PAGE && (p + 1) * PAGE <= e.base + e.length }

  predicate Touches(e: E820, p: nat) { p * PAGE < e.base + e.length && e.base < (p + 1) * PAGE }

  // A RAM entry that ends before the first page boundary after its base.
  predicate EndsBeforePage(e: E820) { e.base % PAGE != 0 && e.length < PAGE - e.base % PAGE }

  /** RAM is rounded inward, except that an entry ending before the next page makes the length wrap. */
  lemma RamRoundsInwardIff(e: E820)
    requires IsRam(e) && InSpace(e)
    ensures (forall p :: Covers(Rounded(e), p) <==> Inside(e, p)) <==> !EndsBeforePage(e)
    ensures !EndsBeforePage(e) ==> Sound(Rounded(e))
  {
    var rest := PAGE - e.base % PAGE;
    OneTurn(e.length - rest, TWO64);
    if EndsBeforePage(e) {
      var p := First(Rounded(e));
      assert Covers(Rounded(e), p) && !Inside(e, p);
    } else {
      forall p ensures Covers(Rounded(e), p) <==> Inside(e, p) {
      }
    }
  }

  /** Everything else is rounded outward. */
  lemma OtherRoundsOutward(e: E820)
    requires !IsRam(e) && InSpace(e)
    ensures Sound(Rounded(e))
    ensures forall p :: Covers(Rounded(e), p) <==> Touches(e, p)
  {
    var length := e.length + e.base % PAGE;
    assert U64(length) == length;
    if length % PAGE != 0 {
      assert (length / PAGE + 1) * PAGE <= TWO64 - PAGE;
    }
  }

  // A page touched by a non-empty entry is one that shares a byte with it.
  lemma TouchesIffSharesByte(e: E820, p: nat)
    requires e.length > 0
    ensures Touches(e, p) <==> exists b :: e.base <= b < e.base + e.length && b / PAGE == p
  {
    if Touches(e, p) {
      var b := if e.base < p * PAGE then p * PAGE else e.base;
      assert e.base <= b < e.base + e.length && b / PAGE == p;
    }
  }

  function Generated(ds: seq<Desc>, es: seq<E820>): seq<Desc>
    decreases |es|
  {
    if es == [] then ds else Generated(Added(ds, Rounded(es[0])), es[1..])
  }

  ghost predicate AllFit(ds: seq<Desc>, es: seq<E820>)
    decreases |es|
  {
    es == [] || (Fits(ds, Rounded(es[0])) && AllFit(Added(ds, Rounded(es[0])), es[1..]))
  }

  predicate Usable(e: E820) { InSpace(e) && (IsRam(e) ==> !EndsBeforePage(e)) }

  ghost predicate InRam(es: seq<E820>, p: nat) { exists e <- es :: IsRam(e) && Inside(e, p) }
  ghost predicate InOther(es: seq<E820>, p: nat) { exists e <- es :: !IsRam(e) && Touches(e, p) }

  lemma RoundedMeaning(e: E820)
    requires Usable(e)
    ensures Sound(Rounded(e)) && (Rounded(e).kind == CONVENTIONAL <==> IsRam(e))
    ensures forall p :: Covers(Rounded(e), p) <==> if IsRam(e) then Inside(e, p) else Touches(e, p)
  {
    if IsRam(e) {
      RamRoundsInwardIff(e);
    } else {
      OtherRoundsOutward(e);
    }
  }

  // Once a page is taken, no later RAM entry that fits describes it.
  lemma {:induction false} RamAvoidsTaken(ds: seq<Desc>, es: seq<E820>, kind: nat, p: nat)
    requires WellFormed(ds) && AllFit(ds, es) && (forall e <- es :: Usable(e))
    requires kind != CONVENTIONAL && Has(ds, kind, p)
    ensures !InRam(es, p)
    decreases |es|
  {
    if es != [] {
      var n := Rounded(es[0]);
      RoundedMeaning(es[0]);
      AddedMeaning(ds, n);
      RamAvoidsTaken(Added(ds, n), es[1..], kind, p);
    }
  }

  /**
   * The generated map: a page is free memory exactly when it lies wholly inside a RAM entry and no
   * other entry touches it.  Each E820 entry uses up at most two descriptors.
   */
  lemma {:induction false} GeneratedMeaning(ds: seq<Desc>, es: seq<E820>)
    requires WellFormed(ds) && AllFit(ds, es) && (forall e <- es :: Usable(e))
    ensures WellFormed(Generated(ds, es)) && |Generated(ds, es)| <= |ds| + 2 * |es|
    ensures forall p :: Has(Generated(ds, es), CONVENTIONAL, p) <==>
      (Has(ds, CONVENTIONAL, p) || InRam(es, p)) && !InOther(es, p)
    decreases |es|
  {
    if es != [] {
      var n, rest := Rounded(es[0]), es[1..];
      var next := Added(ds, n);
      RoundedMeaning(es[0]);
      AddedMeaning(ds, n);
      GeneratedMeaning(next, rest);
      forall p
        ensures Has(Generated(ds, es), CONVENTIONAL, p) <==>
          (Has(ds, CONVENTIONAL, p) || InRam(es, p)) && !InOther(es, p)
      {
        assert InRam(es, p) <==> (IsRam(es[0]) && Inside(es[0], p)) || InRam(rest, p);
        assert InOther(es, p) <==> (!IsRam(es[0]) && Touches(es[0], p)) || InOther(rest, p);
        if !IsRam(es[0]) && Touches(es[0], p) {
          RamAvoidsTaken(next, rest, n.kind, p);
        }
      }
    }
  }

  // ---------- tables whose entries share no byte ----------

  predicate ShareNoByte(e: E820, f: E820) { e.base + e.length <= f.base || f.base + f.length <= e.base }

  predicate Apart(a: Desc, b: Desc) { Disjoint(a, b) || (a.kind != CONVENTIONAL && b.kind != CONVENTIONAL) }

  lemma ShareNoByteIsApart(e: E820, f: E820)
    requires Usable(e) && Usable(f) && ShareNoByte(e, f)
    ensures Apart(Rounded(e), Rounded(f))
  {
    RoundedMeaning(e);
    RoundedMeaning(f);
    var a, b := Rounded(e), Rounded(f);
    if !Apart(a, b) {
      var p := if First(a) < First(b) then First(b) else First(a);
      assert Covers(a, p) && Covers(b, p);
    }
  }

  lemma {:induction false} ApartTableFits(ds: seq<Desc>, es: seq<E820>)
    requires WellFormed(ds) && (forall e <- es :: Usable(e))
    requires forall i, j :: 0 <= i < |ds| && 0 <= j < |es| ==> Apart(ds[i], Rounded(es[j]))
    requires forall i, j :: 0 <= i < j < |es| ==> Apart(Rounded(es[i]), Rounded(es[j]))
    ensures AllFit(ds, es) && |Generated(ds, es)| <= |ds| + |es|
    decreases |es|
  {
    if es != [] {
      var n := Rounded(es[0]);
      RoundedMeaning(es[0]);
      forall j | 0 <= j < |ds| ensures Apart(ds[j], n) && (n.pages > 0 ==> Idle(ds[j], n)) {
        assert Apart(ds[j], Rounded(es[0]));
        if n.pages > 0 {
          CarveIdle(ds[j], n);
        }
      }
      AddedMeaning(ds, n);
      if n.pages > 0 {
        ScanIdle(ds, 0, |ds|, n);
      }
      var next := Added(ds, n);
      forall i, j | 0 <= i < |next| && 0 <= j < |es[1..]| ensures Apart(next[i], Rounded(es[1..][j])) {
        assert Apart(Rounded(es[0]), Rounded(es[j + 1]));
        assert i < |ds| ==> next[i] == ds[i] && Apart(ds[i], Rounded(es[j + 1]));
      }
      ApartTableFits(next, es[1..]);
    }
  }

  /**
   * For every table of entries that share no byte, in any order, the map built from nothing has exactly
   * the pages lying wholly inside a RAM entry as free memory, in at most one descriptor per entry.
   */
  lemma DisjointTableMeaning(es: seq<E820>)
    requires forall e <- es :: Usable(e)
    requires forall i, j :: 0 <= i < j < |es| ==> ShareNoByte(es[i], es[j])
    ensures AllFit([], es) && WellFormed(Generated([], es)) && |Generated([], es)| <= |es|
    ensures forall p :: Has(Generated([], es), CONVENTIONAL, p) <==> InRam(es, p)
  {
    forall i, j | 0 <= i < j < |es| ensures Apart(Rounded(es[i]), Rounded(es[j])) {
      ShareNoByteIsApart(es[i], es[j]);
    }
    ApartTableFits([], es);
    GeneratedMeaning([], es);
    forall e, f, p | e in es && f in es && IsRam(e) && Inside(e, p) && !IsRam(f) ensures !Touches(f, p) {
      var i :| 0 <= i < |es| && es[i] == e;
      var j :| 0 <= j < |es| && es[j] == f;
      assert if i < j then ShareNoByte(e, f) else ShareNoByte(f, e);
    }
  }

  // ---------- FindSpace ----------

  function End(d: Desc): nat { U64(d.start + d.pages * PAGE) }

  predicate Eligible(d: Desc, pages: nat) {
    End(d) > MB && d.kind == CONVENTIONAL && d.pages >= pages && End(d) <= GB4 && d.start > 0
  }

  // A run-time services descriptor above 1 MB ends the search.
  predicate Stops(d: Desc) { End(d) > MB && (d.kind == RUNTIME_CODE || d.kind == RUNTIME_DATA) }

  // The loop from index i on, with the best candidate so far (-1: none).
  function Best(ds: seq<Desc>, i: nat, pages: nat, best: int): (r: int)
    requires i <= |ds| && -1 <= best < i
    ensures -1 <= r < |ds|
    decreases |ds| - i
  {
    if i == |ds| then best
    else
      var better := Eligible(ds[i], pages) && (best < 0 || ds[i].start > ds[best].start);
      var next := if better then i else best;
      if Stops(ds[i]) then next else Best(ds, i + 1, pages, next)
  }

  datatype Allocation = Allocation(map_: seq<Desc>, address: nat)

  function AllocatedAt(ds: seq<Desc>, k: nat, pages: nat, kind: nat, attr: nat): Allocation
    requires k < |ds| && pages <= ds[k].pages
  {
    var address := ds[k].start + (ds[k].pages - pages) * PAGE;
    if ds[k].pages != pages
    then Allocation(ds[k := ds[k].(pages := ds[k].pages - pages)] + [Desc(kind, address, pages, attr)], address)
    else Allocation(ds[k := ds[k].(kind := kind, attr := attr)], address)
  }

  lemma {:induction false} BestIsEligible(ds: seq<Desc>, i: nat, pages: nat, best: int)
    requires i <= |ds| && -1 <= best < i && (best >= 0 ==> Eligible(ds[best], pages))
    ensures var r := Best(ds, i, pages, best); r >= 0 ==> Eligible(ds[r], pages)
    decreases |ds| - i
  {
    if i < |ds| {
      var next := if Eligible(ds[i], pages) && (best < 0 || ds[i].start > ds[best].start) then i else best;
      BestIsEligible(ds, i + 1, pages, next);
    }
  }

  function Allocated(ds: seq<Desc>, pages: nat, kind: nat, attr: nat): Allocation {
    var k := Best(ds, 0, pages, -1);
    BestIsEligible(ds, 0, pages, -1);
    if k < 0 then Allocation(ds, 0) else AllocatedAt(ds, k, pages, kind, attr)
  }

  // Reached before any descriptor that ends the search.
  ghost predicate Visible(ds: seq<Desc>, k: nat)
    requires k < |ds|
  {
    forall j :: 0 <= j < k ==> !Stops(ds[j])
  }

  /** The search finds the eligible descriptor with the highest start among those it gets to see. */
  lemma {:induction false} BestIsHighest(ds: seq<Desc>, i: nat, pages: nat, best: int)
    requires i <= |ds| && -1 <= best < i && (forall j :: 0 <= j < i ==> !Stops(ds[j]))
    requires best >= 0 ==> Eligible(ds[best], pages)
    requires forall j :: 0 <= j < i && Eligible(ds[j], pages) ==> best >= 0 && ds[j].start <= ds[best].start
    ensures var r := Best(ds, i, pages, best);
      && (r >= 0 ==> Eligible(ds[r], pages) && Visible(ds, r))
      && forall j :: 0 <= j < |ds| && Eligible(ds[j], pages) && Visible(ds, j) ==> r >= 0 && ds[j].start <= ds[r].start
    decreases |ds| - i
  {
    if i < |ds| {
      var next := if Eligible(ds[i], pages) && (best < 0 || ds[i].start > ds[best].start) then i else best;
      if Stops(ds[i]) {
        assert Best(ds, i, pages, best) == next;
      } else {
        BestIsHighest(ds, i + 1, pages, next);
      }
    }
  }

  /**
   * An allocation either fails and changes nothing, or retypes a page-aligned run of free pages between
   * 0 and 4 GB and nothing else, using up at most one descriptor.
   */
  lemma AllocatedMeaning(ds: seq<Desc>, pages: nat, kind: nat, attr: nat)
    requires WellFormed(ds) && kind != CONVENTIONAL
    ensures var r := Allocated(ds, pages, kind, attr);
      && WellFormed(r.map_) && |r.map_| <= |ds| + 1
      && (r.address == 0 ==> r.map_ == ds)
      && (r.address > 0 ==>
            && r.address % PAGE == 0 && r.address + pages * PAGE <= GB4
            && forall t, p :: Has(r.map_, t, p) <==>
                 if Covers(Desc(kind, r.address, pages, attr), p) then t == kind else Has(ds, t, p))
      && (r.address > 0 ==> forall p :: Covers(Desc(kind, r.address, pages, attr), p) ==> Has(ds, CONVENTIONAL, p))
  {
    var k := Best(ds, 0, pages, -1);
    BestIsEligible(ds, 0, pages, -1);
    if k >= 0 {
      AllocatedAtMeaning(ds, k, pages, kind, attr);
    }
  }

  lemma AllocatedAtMeaning(ds: seq<Desc>, k: nat, pages: nat, kind: nat, attr: nat)
    requires WellFormed(ds) && kind != CONVENTIONAL && k < |ds| && Eligible(ds[k], pages)
    ensures var r := AllocatedAt(ds, k, pages, kind, attr);
      && WellFormed(r.map_) && |r.map_| <= |ds| + 1
      && r.address > 0 && r.address % PAGE == 0 && r.address + pages * PAGE <= GB4
      && (forall t, p :: Has(r.map_, t, p) <==>
            if Covers(Desc(kind, r.address, pages, attr), p) then t == kind else Has(ds, t, p))
      && forall p :: Covers(Desc(kind, r.address, pages, attr), p) ==> Has(ds, CONVENTIONAL, p)
  {
    var r := AllocatedAt(ds, k, pages, kind, attr);
    var d, n := ds[k], Desc(kind, r.address, pages, attr);
    assert End(d) == d.start + d.pages * PAGE || d.start + d.pages * PAGE == TWO64;
    assert First(n) == First(d) + d.pages - pages;
    if d.pages == pages {
      var x := d.(kind := kind, attr := attr);
      assert x == n;
      HasReplace(ds, k, x);
      WellFormedReplace(ds, k, x);
    } else {
      var x := d.(pages := d.pages - pages);
      HasReplace(ds, k, x);
      WellFormedReplace(ds, k, x);
      HasAppend(ds[k := x], n);
      WellFormedAppend(ds[k := x], n);
    }
    forall t, p ensures Has(r.map_, t, p) <==> if Covers(n, p) then t == kind else Has(ds, t, p) {
      if Covers(d, p) {
        FreeMemoryIsOnlyFree(ds, k, t, p);
      }
    }
  }
}

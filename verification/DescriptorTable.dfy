/**
 * The three routines of EfiLdr/Support.c on the descriptor array, in place.
 */
module DescriptorTable {
  import opened MachineWords
  import opened MemoryMap

  // The array never shrinks while it is scanned.
  lemma {:induction false} ScanGrows(ds: seq<Desc>, i: nat, count: nat, n: Desc)
    requires i <= count <= |ds|
    ensures |Scan(ds, i, count, n)| >= |ds|
    decreases count - i
  {
    if i < count {
      var c := Carve(ds[i], n);
      if !c.exact {
        ScanGrows(ds[i := c.left] + c.rest, i + 1, count, n);
      }
    }
  }

  lemma {:induction false} GeneratedGrows(ds: seq<Desc>, es: seq<E820>)
    ensures |Generated(ds, es)| >= |ds|
    decreases |es|
  {
    if es != [] {
      var n := Rounded(es[0]);
      if n.pages > 0 {
        ScanGrows(ds, 0, |ds|, n);
      }
      GeneratedGrows(Added(ds, n), es[1..]);
    }
  }

  class Table {
    const desc: array<Desc>
    var count: nat

    ghost predicate Valid()
      reads this
    {
      count <= desc.Length
    }

    function Contents(): seq<Desc>
      reads this, desc
      requires Valid()
    {
      desc[..count]
    }

    constructor (size: nat)
      ensures Valid() && fresh(desc) && desc.Length == size && Contents() == []
    {
      desc := new Desc[size](_ => Desc(0, 0, 0, 0));
      count := 0;
    }

    /** EfiAddMemoryDescriptor */
    method AddMemoryDescriptor(n: Desc)
      requires Valid() && n.start < TWO64 && n.pages < TWO64
      requires |Added(Contents(), n)| <= desc.Length
      modifies this, desc
      ensures Valid() && Contents() == Added(old(Contents()), n)
    {
      if n.pages == 0 {
        return;
      }
      var numberOfDesc := count;
      var index := 0;
      while index < numberOfDesc
        invariant 0 <= index <= numberOfDesc <= count && Valid()
        invariant Scan(Contents(), index, numberOfDesc, n) == Added(old(Contents()), n)
      {
        ghost var before := Contents();
        ghost var c := Carve(before[index], n);
        ghost var next := before[index := c.left] + c.rest;
        assert |Scan(before, index, numberOfDesc, n)| >= |next| by {
          if !c.exact {
            ScanGrows(next, index + 1, numberOfDesc, n);
          }
        }
        var done := CarveSlot(index, n);
        if done {
          return;
        }
        index := index + 1;
      }
      desc[count] := n;
      count := count + 1;
    }

    // The body of the loop; the result says that the range was exactly this descriptor.
    method CarveSlot(index: nat, n: Desc) returns (done: bool)
      requires Valid() && index < count
      requires count + |Carve(Contents()[index], n).rest| <= desc.Length
      modifies this, desc
      ensures Valid() && done == Carve(old(Contents())[index], n).exact
      ensures var c := Carve(old(Contents())[index], n); Contents() == old(Contents())[index := c.left] + c.rest
    {
      ghost var c := Carve(Contents()[index], n);
      if desc[index].kind == CONVENTIONAL {
        var temp := U64(U64(n.start - desc[index].start) / PAGE + n.pages);
        if desc[index].start < n.start && desc[index].pages >= temp {
          if desc[index].pages > temp {
            desc[count] :=
              Desc(CONVENTIONAL, U64(n.start + n.pages * PAGE), desc[index].pages - temp, desc[index].attr);
            count := count + 1;
          }
          desc[index] := desc[index].(pages := U64(temp - n.pages));
        }
        if desc[index].start == n.start && desc[index].pages == n.pages {
          desc[index] := desc[index].(kind := n.kind, attr := n.attr);
          return true;
        }
        if desc[index].start == n.start && desc[index].pages > n.pages {
          desc[index] :=
            desc[index].(pages := desc[index].pages - n.pages, start := U64(desc[index].start + n.pages * PAGE));
        }
      }
      return false;
    }

    /** GenMemoryMap */
    method GenMemoryMap(es: seq<E820>)
      requires Valid() && (forall e <- es :: e.base < TWO64 && e.length < TWO64)
      requires |Generated(Contents(), es)| <= desc.Length
      modifies this, desc
      ensures Valid() && Contents() == Generated(old(Contents()), es)
    {
      var index := 0;
      while index < |es|
        invariant 0 <= index <= |es| && Valid()
        invariant Generated(Contents(), es[index..]) == Generated(old(Contents()), es)
      {
        assert es[index..][0] == es[index] && es[index..][1..] == es[index + 1..];
        var n := Round(es[index]);
        GeneratedGrows(Added(Contents(), n), es[index + 1..]);
        AddMemoryDescriptor(n);
        index := index + 1;
      }
      assert es[index..] == [];
    }

    // The switch and the rounding of one entry.
    static method Round(e: E820) returns (n: Desc)
      requires e.base < TWO64 && e.length < TWO64
      ensures n == Rounded(e) && n.start < TWO64 && n.pages < TWO64
    {
      var kind, attr := RESERVED, MEMORY_UC;
      match e.kind {
        case 1 => kind, attr := CONVENTIONAL, MEMORY_WB;
        case 2 => kind, attr := RESERVED, MEMORY_UC;
        case 3 => kind, attr := ACPI_RECLAIM, MEMORY_WB;
        case 4 => kind, attr := ACPI_NVS, MEMORY_UC;
        case _ =>
      }
      var base, length := e.base, e.length;
      if kind == CONVENTIONAL {
        if base % PAGE != 0 {
          length := U64(length + base % PAGE - PAGE);
          base := U64((base / PAGE + 1) * PAGE);
        }
      } else {
        length := U64(length + base % PAGE);
        base := base / PAGE * PAGE;
        if length % PAGE != 0 {
          length := U64((length / PAGE + 1) * PAGE);
        }
      }
      n := Desc(kind, base, length / PAGE, attr);
    }

    /** FindSpace; 0 when there is no space */
    method FindSpace(pages: nat, kind: nat, attr: nat) returns (address: nat)
      requires Valid() && |Allocated(Contents(), pages, kind, attr).map_| <= desc.Length
      modifies this, desc
      ensures Valid() && Allocation(Contents(), address) == Allocated(old(Contents()), pages, kind, attr)
    {
      ghost var before := Contents();
      ghost var found := Best(before, 0, pages, -1);
      BestIsEligible(before, 0, pages, -1);
      var maxPhysicalStart, maxNoPages, current := 0, 0, -1;
      var index := 0;
      while index < count
        invariant 0 <= index <= count && -1 <= current < index
        invariant Best(before, index, pages, current) == found
        invariant current < 0 ==> maxPhysicalStart == 0 && maxNoPages == 0
        invariant current >= 0 ==>
          && Eligible(before[current], pages)
          && maxPhysicalStart == before[current].start && maxNoPages == before[current].pages
      {
        var d := desc[index];
        if End(d) <= MB {
          index := index + 1;
          continue;
        }
        if d.kind == CONVENTIONAL && d.pages >= pages {
          if d.start > maxPhysicalStart {
            if End(d) <= GB4 {
              maxPhysicalStart, maxNoPages, current := d.start, d.pages, index;
            }
          }
        }
        if d.kind == RESERVED || d.kind >= ACPI_RECLAIM {
          index := index + 1;
          continue;
        }
        if d.kind == RUNTIME_CODE || d.kind == RUNTIME_DATA {
          assert current == found;
          break;
        }
        index := index + 1;
      }
      assert current == found;
      if maxPhysicalStart == 0 {
        return 0;
      }
      address := maxPhysicalStart + (maxNoPages - pages) * PAGE;
      if maxNoPages != pages {
        desc[current] := desc[current].(pages := maxNoPages - pages);
        desc[count] := Desc(kind, address, pages, attr);
        count := count + 1;
      } else {
        desc[current] := desc[current].(kind := kind, attr := attr);
      }
    }
  }
}

/**
 * Loading the sections of a PE image (EfiLdr/PeLoader.c).
 *
 * The section table is read from the copy of the headers in the memory that is being filled.  Offsets count
 * from the base of the image; `file` is the image file in memory.  The loader checks less than it writes, so the
 * memory here goes on behind the image.
 */
module PeSections {
  import opened LittleEndian
  import opened PeReloc
  import opened Raster

  datatype Section = Section(va: nat, virtualSize: nat, raw: nat, pointer: nat)

  // Entry k of a table of headers of 40 bytes.
  function SectionAt(image: seq<Byte>, table: nat, k: nat): Section
    requires table + 40 * k + 40 <= |image|
  {
    Section(Field(image, table + 40 * k + 12, 4), Field(image, table + 40 * k + 8, 4),
            Field(image, table + 40 * k + 16, 4), Field(image, table + 40 * k + 20, 4))
  }

  function Sections(image: seq<Byte>, table: nat, count: nat): (r: seq<Section>)
    requires table + 40 * count <= |image|
    ensures |r| == count
  {
    if count == 0 then [] else Sections(image, table, count - 1) + [SectionAt(image, table, count - 1)]
  }

  lemma {:induction false} SectionsAt(image: seq<Byte>, table: nat, count: nat, k: nat)
    requires table + 40 * count <= |image| && k < count
    ensures Sections(image, table, count)[k] == SectionAt(image, table, k)
  {
    if k < count - 1 {
      SectionsAt(image, table, count - 1, k);
    }
  }

  // The bounds the loader checks: its first and its end address, added in 32 bits, are addresses of the image.
  predicate Accepted(s: Section, length: nat) { s.va < length && (s.va + s.virtualSize) % 0x1_0000_0000 < length }

  function Extent(s: Section): nat { if s.raw < s.virtualSize then s.virtualSize else s.raw }

  // The raw data is in the file, and there is memory for all of the section.
  predicate Sound(s: Section, length: nat, file: nat) { s.va + Extent(s) <= length && s.pointer + s.raw <= file }

  predicate AwayFrom(s: Section, from: nat, to: nat) { s.va + Extent(s) <= from || to <= s.va }

  function Zeros(n: nat): seq<Byte> { seq(n, _ => 0) }

  // A section in memory
  function Contents(s: Section, file: seq<Byte>): (r: seq<Byte>)
    requires s.pointer + s.raw <= |file|
    ensures |r| == Extent(s)
  {
    file[s.pointer..s.pointer + s.raw] + Zeros(Extent(s) - s.raw)
  }

  ghost predicate AllSound(secs: seq<Section>, length: nat, file: nat) {
    forall k :: 0 <= k < |secs| ==> Sound(secs[k], length, file)
  }

  // The image with the first n sections loaded
  function Loaded(image: seq<Byte>, file: seq<Byte>, secs: seq<Section>, n: nat): (r: seq<Byte>)
    requires AllSound(secs, |image|, |file|) && n <= |secs|
    ensures |r| == |image|
  {
    if n == 0 then image
    else Splice(Loaded(image, file, secs, n - 1), secs[n - 1].va, Contents(secs[n - 1], file))
  }

  predicate Inside(s: Section, j: int) { s.va <= j < s.va + Extent(s) }

  ghost predicate Disjoint(secs: seq<Section>) {
    forall k, l :: 0 <= k < l < |secs| ==> AwayFrom(secs[k], secs[l].va, secs[l].va + Extent(secs[l]))
  }

  // The last section decides what is at its addresses.
  lemma LastDecides(image: seq<Byte>, file: seq<Byte>, secs: seq<Section>, n: nat, j: nat)
    requires AllSound(secs, |image|, |file|) && 0 < n <= |secs| && j < |image|
    ensures Loaded(image, file, secs, n)[j] ==
      if Inside(secs[n - 1], j) then Contents(secs[n - 1], file)[j - secs[n - 1].va]
        else Loaded(image, file, secs, n - 1)[j]
  {
    SpliceIndex(Loaded(image, file, secs, n - 1), secs[n - 1].va, Contents(secs[n - 1], file), j);
  }

  lemma ContentsAt(s: Section, file: seq<Byte>, i: nat)
    requires s.pointer + s.raw <= |file| && i < Extent(s)
    ensures Contents(s, file)[i] == if i < s.raw then file[s.pointer + i] else 0
  {
  }

  /** Every byte outside the sections is left alone. */
  lemma {:induction false} OutsideKept(image: seq<Byte>, file: seq<Byte>, secs: seq<Section>, n: nat, j: nat)
    requires AllSound(secs, |image|, |file|) && n <= |secs| && j < |image|
    requires forall k :: 0 <= k < n ==> !Inside(secs[k], j)
    ensures Loaded(image, file, secs, n)[j] == image[j]
  {
    if n > 0 {
      OutsideKept(image, file, secs, n - 1, j);
      LastDecides(image, file, secs, n, j);
    }
  }

  /** Byte i of a section that meets no other is raw byte i, and zero beyond the raw data. */
  lemma {:induction false} SectionLoaded(image: seq<Byte>, file: seq<Byte>, secs: seq<Section>, n: nat, k: nat, i: nat)
    requires AllSound(secs, |image|, |file|) && Disjoint(secs) && k < n <= |secs| && i < Extent(secs[k])
    ensures Loaded(image, file, secs, n)[secs[k].va + i] == if i < secs[k].raw then file[secs[k].pointer + i] else 0
    decreases n
  {
    var j := secs[k].va + i;
    LastDecides(image, file, secs, n, j);
    if k < n - 1 {
      SectionLoaded(image, file, secs, n - 1, k, i);
      NotInside(secs[k], secs[n - 1], i);
    } else {
      ContentsAt(secs[k], file, i);
    }
  }

  lemma NotInside(s: Section, other: Section, i: nat)
    requires AwayFrom(s, other.va, other.va + Extent(other)) && i < Extent(s)
    ensures !Inside(other, s.va + i)
  {
  }

  lemma TableKept(image: seq<Byte>, file: seq<Byte>, secs: seq<Section>, n: nat, from: nat, to: nat)
    requires AllSound(secs, |image|, |file|) && n <= |secs| && to <= |image|
    requires forall k :: 0 <= k < |secs| ==> AwayFrom(secs[k], from, to)
    ensures forall j :: from <= j < to ==> Loaded(image, file, secs, n)[j] == image[j]
  {
    forall j | from <= j < to ensures Loaded(image, file, secs, n)[j] == image[j] {
      forall k | 0 <= k < n ensures !Inside(secs[k], j) {
        assert AwayFrom(secs[k], from, to);
      }
      OutsideKept(image, file, secs, n, j);
    }
  }

  lemma SameSection(image: seq<Byte>, other: seq<Byte>, table: nat, k: nat)
    requires table + 40 * k + 40 <= |image| == |other|
    requires forall j :: table + 40 * k <= j < table + 40 * k + 40 ==> image[j] == other[j]
    ensures SectionAt(image, table, k) == SectionAt(other, table, k)
  {
    SameField(image, other, table + 40 * k + 8, 4);
    SameField(image, other, table + 40 * k + 12, 4);
    SameField(image, other, table + 40 * k + 16, 4);
    SameField(image, other, table + 40 * k + 20, 4);
  }

  /** The table says the same after loading, so it does not matter that it is read as the image is filled. */
  lemma {:induction false} SectionsKept(image: seq<Byte>, other: seq<Byte>, table: nat, count: nat)
    requires table + 40 * count <= |image| == |other|
    requires forall j :: table <= j < table + 40 * count ==> image[j] == other[j]
    ensures Sections(image, table, count) == Sections(other, table, count)
  {
    if count > 0 {
      SectionsKept(image, other, table, count - 1);
      SameSection(image, other, table, count - 1);
    }
  }

  // How many sections are loaded.
  function Loadable(secs: seq<Section>, length: nat): (n: nat)
    ensures n <= |secs| && (forall k :: 0 <= k < n ==> Accepted(secs[k], length))
    ensures n < |secs| ==> !Accepted(secs[n], length)
  {
    if secs == [] || !Accepted(secs[0], length) then 0 else 1 + Loadable(secs[1..], length)
  }

  // Every accepted section is sound and meets neither the table nor another section.
  ghost predicate WellFormed(secs: seq<Section>, table: nat, count: nat, length: nat, file: nat) {
    && AllSound(secs, length, file)
    && forall k :: 0 <= k < |secs| ==> AwayFrom(secs[k], table, table + 40 * count)
  }

  method ReadHeader(image: array<Byte>, table: nat, k: nat) returns (s: Section)
    requires table + 40 * k + 40 <= image.Length
    ensures s == SectionAt(image[..], table, k)
  {
    var section := table + 40 * k;
    var virtualSize := U32(image, section + 8);
    var va := U32(image, section + 12);
    var raw := U32(image, section + 16);
    var pointer := U32(image, section + 20);
    s := Section(va, virtualSize, raw, pointer);
  }

  // EfiLdrPeCoffImageRead of raw data, and the zero fill up to the virtual size
  method LoadSection(image: array<Byte>, file: seq<Byte>, s: Section)
    requires Sound(s, image.Length, |file|)
    modifies image
    ensures image[..] == Splice(old(image[..]), s.va, Contents(s, file))
  {
    ghost var was, data := image[..], Contents(s, file);
    if s.raw != 0 {
      forall i | 0 <= i < s.raw {
        image[s.va + i] := file[s.pointer + i];
      }
    }
    if s.raw < s.virtualSize {
      forall i | s.raw <= i < s.virtualSize {
        image[s.va + i] := 0;
      }
    }
    SpliceAt(was, image[..], s.va, data);
  }

  // A load: the memory, the length of the image in it, the image file and the section table.
  datatype Load = Load(memory: seq<Byte>, length: nat, file: seq<Byte>, table: nat, count: nat)

  ghost predicate Feasible(l: Load) {
    && l.table + 40 * l.count <= |l.memory| && l.length <= |l.memory|
    && WellFormed(Passing(l), l.table, l.count, |l.memory|, |l.file|)
  }

  ghost function Passing(l: Load): seq<Section>
    requires l.table + 40 * l.count <= |l.memory|
  {
    var secs := Sections(l.memory, l.table, l.count);
    secs[..Loadable(secs, l.length)]
  }

  // The memory after the first n sections that pass the check.
  ghost predicate After(l: Load, n: nat, memory: seq<Byte>)
    requires Feasible(l)
  {
    n <= |Passing(l)| && memory == Loaded(l.memory, l.file, Passing(l), n)
  }

  lemma AfterKeepsTable(l: Load, n: nat, memory: seq<Byte>)
    requires Feasible(l) && After(l, n, memory)
    ensures |memory| == |l.memory| && forall j :: l.table <= j < l.table + 40 * l.count ==> memory[j] == l.memory[j]
    ensures Sections(memory, l.table, l.count) == Sections(l.memory, l.table, l.count)
  {
    TableKept(l.memory, l.file, Passing(l), n, l.table, l.table + 40 * l.count);
    SectionsKept(memory, l.memory, l.table, l.count);
  }

  lemma AfterOneMore(l: Load, n: nat, memory: seq<Byte>)
    requires Feasible(l) && After(l, n, memory) && n < |Passing(l)|
    ensures var s := Passing(l)[n];
      Sound(s, |memory|, |l.file|) && After(l, n + 1, Splice(memory, s.va, Contents(s, l.file)))
  {
  }

  // The header read next is the one of the table the load started with.
  lemma HeaderAfter(l: Load, n: nat, memory: seq<Byte>)
    requires Feasible(l) && After(l, n, memory) && n < l.count
    ensures |memory| == |l.memory|
    ensures Accepted(SectionAt(memory, l.table, n), l.length) <==> n < |Passing(l)|
    ensures n < |Passing(l)| ==> SectionAt(memory, l.table, n) == Passing(l)[n]
  {
    AfterKeepsTable(l, n, memory);
    SectionsAt(memory, l.table, l.count, n);
  }

  // The next section of a load: false if it does not pass
  method LoadNext(memory: array<Byte>, length: nat, file: seq<Byte>, table: nat, index: nat, ghost l: Load)
    returns (ok: bool)
    requires Feasible(l) && After(l, index, memory[..]) && length == l.length && file == l.file && table == l.table
    requires index < l.count
    modifies memory
    ensures ok <==> index < |Passing(l)|
    ensures After(l, if ok then index + 1 else index, memory[..])
  {
    HeaderAfter(l, index, memory[..]);
    var s := ReadHeader(memory, table, index);
    if s.va >= length || (s.va + s.virtualSize) % 0x1_0000_0000 >= length {
      return false;
    }
    AfterOneMore(l, index, memory[..]);
    LoadSection(memory, file, s);
    ok := true;
  }

  /** The section loop of EfiLdrPeCoffLoadPeImage: LOAD_ERROR (false) at the first section that is not accepted */
  method LoadSections(memory: array<Byte>, length: nat, file: seq<Byte>, table: nat, count: nat) returns (ok: bool)
    requires Feasible(Load(memory[..], length, file, table, count))
    modifies memory
    ensures var l := Load(old(memory[..]), length, file, table, count);
      && Feasible(l)
      && (ok <==> |Passing(l)| == count)
      && memory[..] == Loaded(l.memory, file, Passing(l), |Passing(l)|)
      && Sections(memory[..], table, count) == Sections(l.memory, table, count)
  {
    ghost var l := Load(memory[..], length, file, table, count);
    var index := 0;
    while index < count
      invariant 0 <= index <= count && After(l, index, memory[..])
    {
      ok := LoadNext(memory, length, file, table, index, l);
      if !ok {
        AfterKeepsTable(l, index, memory[..]);
        return;
      }
      index := index + 1;
    }
    AfterKeepsTable(l, index, memory[..]);
    ok := true;
  }

  /**
   * An accepted section is written inside the image if and only if its end does not wrap around 32 bits and its raw
   * data, the size of which is not checked, ends there too.
   */
  lemma AcceptedInsideIff(s: Section, length: nat)
    requires Accepted(s, length) && s.virtualSize < 0x1_0000_0000 && length < 0x1_0000_0000
    ensures s.va + Extent(s) <= length <==> s.va + s.virtualSize < 0x1_0000_0000 && s.va + s.raw <= length
    ensures s.va + s.virtualSize < length <==> s.va + s.virtualSize < 0x1_0000_0000
  {
  }

  /** An accepted section whose end wraps around */
  lemma WrapRunsOut(length: nat)
    requires 0x1000 < length < 0x1_0000_0000
    ensures var s := Section(0x1000, 0xffff_f000, 0, 0); Accepted(s, length) && s.va + Extent(s) > length
  {
  }

  /** An accepted section with too much raw data */
  lemma RawRunsOut(length: nat)
    requires 0x1010 < length < 0x7fff_ffff
    ensures var s := Section(0x1000, 0x10, 0x7fff_ffff, 0); Accepted(s, length) && s.va + Extent(s) > length
  {
  }

  /** If all sections that pass the check meet both conditions, nothing behind the image is written. */
  lemma LoadStaysInside(l: Load, j: nat)
    requires Feasible(l) && l.length < 0x1_0000_0000 && l.length <= j < |l.memory|
    requires forall k :: 0 <= k < |Passing(l)| ==>
      Passing(l)[k].va + Passing(l)[k].virtualSize < 0x1_0000_0000 && Passing(l)[k].va + Passing(l)[k].raw <= l.length
    ensures Loaded(l.memory, l.file, Passing(l), |Passing(l)|)[j] == l.memory[j]
  {
    var secs := Passing(l);
    forall k | 0 <= k < |secs| ensures !Inside(secs[k], j) {
      AcceptedInsideIff(secs[k], l.length);
    }
    OutsideKept(l.memory, l.file, secs, |secs|, j);
  }
}

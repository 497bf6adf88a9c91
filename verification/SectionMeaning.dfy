/**
 * What the section table of a PE image says and which of its sections are loaded (EfiLdr/PeLoader.c; section 4,
 * "Section Table (Section Headers)", of the Microsoft PE/COFF specification), by the bytes of the table.
 */
module SectionMeaning {
  import opened Arithmetic
  import opened LittleEndian
  import opened PeReloc
  import opened PeSections
  import opened RelocMeaning

  /** A header of 40 bytes: at byte 8 the virtual size, then the address, the raw size and the raw pointer. */
  lemma HeaderMeans(image: seq<Byte>, table: nat, k: nat)
    requires table + 40 * k + 40 <= |image|
    ensures var s, at := SectionAt(image, table, k), table + 40 * k;
      && s.virtualSize == Four(image, at + 8) && s.va == Four(image, at + 12)
      && s.raw == Four(image, at + 16) && s.pointer == Four(image, at + 20)
  {
    FieldIsFour(image, table + 40 * k + 8);
    FieldIsFour(image, table + 40 * k + 12);
    FieldIsFour(image, table + 40 * k + 16);
    FieldIsFour(image, table + 40 * k + 20);
  }

  /** A section passes if it starts in the image and its end, a sum of 32 bits, is there or wraps around to there. */
  lemma AcceptedMeans(s: Section, length: nat)
    requires s.va < 0x1_0000_0000 && s.virtualSize < 0x1_0000_0000 && length <= 0x1_0000_0000
    ensures Accepted(s, length) <==>
      s.va < length
      && (s.va + s.virtualSize < length || 0x1_0000_0000 <= s.va + s.virtualSize < 0x1_0000_0000 + length)
  {
    ModOnce(s.va + s.virtualSize, 0x1_0000_0000);
  }

  /** The sections loaded are those of the table in their order, up to the first that does not pass. */
  lemma PassingMeans(l: Load, k: nat)
    requires l.table + 40 * l.count <= |l.memory| && k < l.count
    ensures |Passing(l)| <= l.count
    ensures k < |Passing(l)| ==>
      Passing(l)[k] == SectionAt(l.memory, l.table, k) && Accepted(SectionAt(l.memory, l.table, k), l.length)
    ensures k == |Passing(l)| ==> !Accepted(SectionAt(l.memory, l.table, k), l.length)
  {
    SectionsAt(l.memory, l.table, l.count, k);
  }

  // A section's bytes in memory: its raw data, or as many as its virtual size if that is more.
  function Length(s: Section): nat { if s.virtualSize <= s.raw then s.raw else s.virtualSize }

  /** Loading a section copies its raw data and clears the rest of its virtual size; nothing else is changed. */
  lemma ContentsMean(image: seq<Byte>, file: seq<Byte>, secs: seq<Section>, n: nat, s: Section, j: nat)
    requires AllSound(secs, |image|, |file|) && n < |secs| && j < |image| && s == secs[n]
    ensures Loaded(image, file, secs, n + 1)[j] ==
      if s.va <= j < s.va + s.raw then file[s.pointer + (j - s.va)]
      else if s.va <= j < s.va + Length(s) then 0
      else Loaded(image, file, secs, n)[j]
  {
    LastDecides(image, file, secs, n + 1, j);
    if s.va <= j < s.va + Length(s) {
      ContentsAt(s, file, j - s.va);
    }
  }
}

# bareBoot: a verified model of its algorithms

bareBoot is a firmware boot chain: a loader that turns the BIOS memory map and PE images into a handoff, a
DXE IPL that lays out memory for the DXE core, and drivers that put UEFI protocols on top of legacy BIOS
services.  This project models the parts of it that carry algorithms over mutable state and proves what
they keep, what they compute and exactly where they do not do what they are for.

| module | models |
|---|---|
| `ConsoleSpec`, `ConsoleMeaning`, `Console` | the text console: a one-character terminal, and the driver that prints in runs, calls itself for line ends and fillers, and toggles a cursor over the screen by XOR |
| `MemoryMap`, `MapTypes`, `DescriptorTable` | E820 entries carved into a descriptor table, allocation from the top of it, and the types and attributes that pages get |
| `BootLoader` | the run of five allocations and the handoff built from them |
| `FixupMerge` | the range reported for an image and its fixup log, which may come from different memory |
| `HobLayout`, `HobCollect` | the memory that is found and the regions stacked below the top of free memory, through DxeInit, with the pointers of X64 and of IA32 |
| `BltBounds` | the check that both block transfers make of their rectangle, in words that wrap |
| `Raster`, `VbeBlt`, `VbePixel` | block transfers with a shadow of a linear frame buffer, and the shuffling of colour channels |
| `VgaPlanes`, `VgaBlt` | block transfers through the VGA bit mask, latches and four bit planes |
| `PeReloc`, `RelocMeaning`, `PeSections`, `SectionMeaning` | base relocations read from the image that is being patched, the fixup log, and section loading |
| `Chs` | cylinder/head/sector addressing, and which block the registers really name |
| `BlockPlan`, `BlockIo` | what a block I/O request is decided and cut into, and its INT 13h calls that may fail |
| `BlockRun` | runs of requests and resets in which disks are changed and errors leave their codes |
| `KeyboardWait` | the wait loop on the 8042 keyboard controller |
| `SearchReplace` | the search and replace over a video BIOS |
| `LittleEndian`, `Arithmetic`, `MachineWords`, `Wrappers` | bytes and the numbers in them; division with remainder; words of 32 and 64 bits, cut by turns that `MachineWords.WordIsModulo` shows to be the remainder; options |

Code that changes state is imperative here too: each method is proved against a function of the old state,
and the lemmas about that function say what the state means.  Those whose names end in `Mean` or `Means` say it in
numbers, bytes, cells and pages, not through the functions that it is made of.  Bytes, words and pointers wrap where
the code lets them wrap; where X64 and IA32 differ, a parameter or constant `x64` says which it is.  The six read and
write functions of block I/O are two methods here, with the interface as a field: their bodies differ only in the
places where the methods branch on it.

## What the proofs found

- A VGA fill one whole byte wide (`DestinationX % 8 == 0`, `Width == 8`) draws nothing; every other fill
  draws exactly its rectangle.  Reading a VGA rectangle into a buffer and drawing it from there again keeps the
  screen if and only if the rectangle holds none of the colours 7, 8, 9, 10 and 12.
- A RAM entry of the E820 map that ends before the first page boundary after its base makes its length
  wrap around; it is then taken for an enormous range.  Such an entry is excluded by `Usable`, and
  `RamRoundsInwardIff` shows that it is the only exception.
- A non-RAM entry that straddles the edge of a free descriptor is not taken out of free memory at all
  (`CarvedOutIff`).
- The loader reports an image and its fixup log as one range, assuming that the log lies just below the
  image.  That range is the memory taken for them if and only if the map before had room for the log there
  (`MergeIsRightIff`): either something is left of the descriptor that the image came from, it holds the log
  and starts above all other memory that the search could take, or the image used that descriptor up and the highest
  memory listed before it ends where it starts.  `LogElsewhere` and `LogAcross` are two maps on either side.
- On IA32 the end of the memory found above 1 MB is cut to 32 bits before the layout is hung from it, while the HOBs
  keep 64.  Everything is in place if and only if the volumes and the consumed memory fit between the start of that
  memory and its end modulo 2^32 (`InPlaceIff`).  Memory that ends at or below 4 GB is laid out as on X64 (`BelowGB4`).
  Memory that starts at 4 GB or above gets its layout below it, and the length reported for it wraps around
  (`StartsAboveGB4`).  The place of the HOBs wraps around for memory that ends from 192 KB to 80 MB and 192 KB above a
  multiple of 4 GB (`EndsAboveGB4`); `OutOfReach` has an example of each.
- Both block transfers check sums that wrap around.  A rectangle that passes is on the screen if and only if neither
  sum wraps (`CheckedIff`); the pixel before the first line of any screen passes (`PassesOffScreen`).
- The shadow of a VBE frame buffer is not filled when a mode is set.  A visible byte agrees with it after a transfer if
  and only if it did before or was painted, so a transfer over the whole screen makes them agree.
- A move within a VBE screen whose source the driver does not check is right wherever it goes down in memory; one that
  goes up is if the rows of its source lie in scan lines.
- On X64 the layout below the top of memory is in order only for 21 to 44 physical address bits: from 45
  bits on the page tables outgrow the memory set aside, and above 48 there are none.  Also the size of the page
  tables plus 128 MB must not exceed the address of the bottom of the stack.  The constant
  `CONSUMED_MEMORY` is 80 MB (`DxeIpl/HobGeneration.h:29`), where the picture in `DxeIpl/DxeInit.c:74` has 4 MB; the
  model follows the code.
- Relocating an image and relocating it back does not restore fields that hold only the high half of an
  address, unless the distance is a multiple of 64 KB, and on IA32 no fields of 64 bits, to which the distance is added
  without a sign.
- A section that passes the loader's check is written inside the image if and only if its end does not wrap
  around 32 bits and its raw data ends inside the image (`AcceptedInsideIff`).  The code checks neither:
  `WrapRunsOut` and `RawRunsOut` are the two ways past the end.
- The registers of INT 13h carry ten bits of a cylinder as the driver fills them, though it reads twelve
  when it asks for the geometry: blocks beyond cylinder 1023 are read from and written to their place modulo the number
  of blocks in 1024 cylinders (`AddressedWraps`).
- The extended INT 13h loops work for block sizes from 255 to 0xFE00: smaller ones overflow the byte for the
  number of blocks, larger ones never make progress.  An empty request at block 0 is refused, at any other
  block it succeeds.
- No I/O is done for a media ID from before a change of disk until 2^32 changes have come in between; then it is
  current again (`StaleDoesNoIo`, `ComesAround`).
- An error code 4 or 7 lasts exactly until a reset fails with another one (`StuckIff`); as long as it lasts every
  request for I/O is refused, and a reset that succeeds does not clear it.  A failing reset is reported as a success
  unless AL, not AH, is 5 and a second attempt fails as well (`BlockIoDxe/BiosInt13.c:746-757`).
- When a wide character does not fit on a line, the nested call that fills the line leaves the cursor
  showing; it is invisible again only because the pending character is drawn over it.

## Assumptions

Each stands as a `requires`, or as a named predicate in one.

- A console mode has at least two columns and one row; strings hold no null character.
- E820 entries do not reach the end of the 64-bit space; non-RAM entries are disjoint from or contained in
  free descriptors (`AllFit`), which `DisjointTableMeaning` shows for every table of entries without overlap.
- A frame buffer line is at least as long as a visible row, a pixel has one to four bytes, and the buffer of
  a caller covers what is transferred.  The driver checks only the destination of a move; its source may leave the
  screen, but not the shadow buffer.
- A relocation directory is tiled by its blocks up to one that the loader stops at, its fields lie in the
  image and outside the directory, and the log has a word for each two bytes of the directory.
- Accepted sections lie in the memory at hand, which may reach further than the image, and away from the section
  table; their raw data is in the file.
- The firmware behind INT 13h does what it reports to have done; a failing call changes nothing
  outside the blocks asked for unless it reports a changed disk, and a reset leaves the disk alone (`Honest`).  Over a
  run, each disk it identifies has blocks that the interface can work with (`Dependable`).
- The 8042 will supply finitely many bytes, and the limit of a wait plus one round is at most 2^32.
- Names from EDK2 headers that are not part of this model: `NARROW_CHAR` 0xFFF0, `WIDE_CHAR` 0xFFF1,
  `EFI_WIDE_ATTRIBUTE` 0x80, memory descriptors of 40 bytes, a firmware volume header of 0x48 bytes.

## Model

| member | source | states |
|---|---|---|
| ConsoleSpec.OutputAppend | GraphicsConsoleDxe/GraphicsConsole.c:959-1146 | printing s+t in one call is printing s and then t when s has no width markers |
| ConsoleSpec.RunInRange | GraphicsConsoleDxe/GraphicsConsole.c:959-1144 | from a cursor on the screen every string leaves the cursor on the screen and the grid in shape |
| ConsoleSpec.BackspaceErases | GraphicsConsoleDxe/GraphicsConsole.c:961-984 | a backspace takes back the narrow character just printed, also across line ends, with the exact exception in the last cell |
| ConsoleSpec.OverlayTwice | GraphicsConsoleDxe/GraphicsConsole.c:1900-2004 | toggling the cursor twice at a cell restores the screen |
| ConsoleMeaning.LineFeedMeans | GraphicsConsoleDxe/GraphicsConsole.c:986-1062 | a line feed stays in its column and goes to the next row; on the last row every text cell takes the one below it instead, and the last row is filled with the background |
| ConsoleMeaning.CarriageReturnMeans | GraphicsConsoleDxe/GraphicsConsole.c:1064-1070 | a carriage return goes to column 0 and does nothing else |
| ConsoleMeaning.MarkersMean | GraphicsConsoleDxe/GraphicsConsole.c:1072-1080 | the width markers set and clear bit 7 of the attribute and do nothing else |
| ConsoleMeaning.BackspaceMeans | GraphicsConsoleDxe/GraphicsConsole.c:961-984 | from every cell a backspace goes to the one before, also across rows, and leaves a narrow space in it |
| ConsoleMeaning.PrintMeans | GraphicsConsoleDxe/GraphicsConsole.c:1081-1142 | every other character that fits is drawn at the cursor, in one or two cells, and the cursor goes behind it or to the start of the next row |
| ConsoleMeaning.WideAtEdgeMeans | GraphicsConsoleDxe/GraphicsConsole.c:1103-1136 | a wide character in the last column leaves a narrow space there and is drawn at the start of the next row |
| ConsoleMeaning.RunMeans | GraphicsConsoleDxe/GraphicsConsole.c:945-1146 | characters take effect one after the other, and a call puts the attribute back |
| ConsoleMeaning.ServicesMean | GraphicsConsoleDxe/GraphicsConsole.c:1483-1706 | what each of the other services changes, and that clearing fills every cell with the background |
| ConsoleMeaning.CallsMean | GraphicsConsoleDxe/GraphicsConsole.c:1483-1706 | calls take effect one after the other; the cursor is as it was last shown or hidden |
| ConsoleMeaning.CursorMeans | GraphicsConsoleDxe/GraphicsConsole.c:1900-2004 | pixel by pixel what the cursor changes: its glyph's bits, counted from the right, XORed with the foreground colour in its cell |
| ConsoleMeaning.ColorsMean | GraphicsConsoleDxe/GraphicsConsole.c:1724-1730 | attribute f + 16 * b draws with colour f on colour b, whatever its width bit |
| Console.DrawnRun | GraphicsConsoleDxe/GraphicsConsole.c:1095-1132 | drawing a run of fitting characters at once and moving the cursor behind it is printing them one by one, up to the line end still to be done |
| Console.PrintedRun | GraphicsConsoleDxe/GraphicsConsole.c:1095-1142 | the same for the run that was measured, over a cursor that may still be showing, including a wide character that does not fit |
| Console.MoveThenFillScrolls | GraphicsConsoleDxe/GraphicsConsole.c:992-1024 | moving the rows up and filling the last one is the terminal's scroll |
| Console.PrintSpace | GraphicsConsoleDxe/GraphicsConsole.c:1133-1136 | the nested call with the filler string draws one narrow space and moves on |
| Console.PrintCrLf | GraphicsConsoleDxe/GraphicsConsole.c:1138-1142 | the nested call with CR LF starts a new line |
| Console.Console.FlushCursor | GraphicsConsoleDxe/GraphicsConsole.c:1900-2004 | XORs the cursor glyph onto the cell under the cursor and nothing else, if the cursor is visible |
| Console.Console.XorGlyphRow | GraphicsConsoleDxe/GraphicsConsole.c:1967-1973 | one row of that glyph, pixel by pixel |
| Console.Console.MeasureRun | GraphicsConsoleDxe/GraphicsConsole.c:1095-1122 | counts exactly the printable characters that fit on the line, and marks a wide one that does not |
| Console.Console.LineFeedKey | GraphicsConsoleDxe/GraphicsConsole.c:986-1062 | refines the terminal's line feed, scrolling on the last row |
| Console.Console.BackspaceKey | GraphicsConsoleDxe/GraphicsConsole.c:961-984 | refines the terminal's backspace through its two nested calls |
| Console.Console.PrintRun | GraphicsConsoleDxe/GraphicsConsole.c:1081-1143 | refines printing of the characters consumed, through nested calls that toggle the cursor |
| Console.Console.OutputString | GraphicsConsoleDxe/GraphicsConsole.c:894-1159 | terminates, keeps the cursor on the screen and the overlay intact, and does to the text what folding the one-character step over the string does |
| Console.Console.SetAttribute | GraphicsConsoleDxe/GraphicsConsole.c:1483-1509 | accepts attributes up to 0x7F only; changes the colours and leaves text and overlay intact |
| Console.Console.ClearScreen | GraphicsConsoleDxe/GraphicsConsole.c:1527-1593 | blank screen in the background colour, cursor showing at the origin |
| Console.Console.SetCursorPosition | GraphicsConsoleDxe/GraphicsConsole.c:1617-1663 | moves the cursor if the position is on the screen and refuses otherwise; text intact |
| Console.Console.EnableCursor | GraphicsConsoleDxe/GraphicsConsole.c:1682-1706 | shows or hides the cursor; text intact |
| Console.Serve | GraphicsConsoleDxe/GraphicsConsole.c:894-1706 | after any run of service calls the screen is the terminal's text with the cursor glyph XORed at exactly the cursor cell, or nowhere if it is invisible |
| MemoryMap.AddedMeaning | EfiLdr/Support.c:22-88 | adding a range that is disjoint from or inside a free descriptor retypes exactly its pages, keeps free descriptors apart and uses at most two slots |
| MemoryMap.CarvedOutIff | EfiLdr/Support.c:45-74 | a range is really taken out of free memory if and only if it straddles no edge of a free descriptor |
| MemoryMap.RamRoundsInwardIff | EfiLdr/Support.c:192-198 | RAM is rounded to the pages wholly inside it if and only if it does not end before the first page boundary after an unaligned base |
| MemoryMap.OtherRoundsOutward | EfiLdr/Support.c:199-205 | other memory is rounded to the pages it touches |
| MemoryMap.TouchesIffSharesByte | EfiLdr/Support.c:199-205 | the pages a non-empty entry touches are those it shares a byte with |
| MemoryMap.FreeMemoryIsOnlyFree | EfiLdr/Support.c:44-87 | a page in a free descriptor is described as nothing else |
| MemoryMap.GeneratedMeaning | EfiLdr/Support.c:151-223 | a page is free in the generated map if and only if it lies wholly inside a RAM entry and no other entry touches it; two slots an entry suffice |
| MemoryMap.DisjointTableMeaning | EfiLdr/Support.c:151-223 | for every table of entries that share no byte, in any order, exactly the pages inside RAM entries are free, in one descriptor an entry |
| MapTypes.AddedAs | EfiLdr/Support.c:44-87 | a range that is added gets its type and its attribute, and other pages keep both |
| MapTypes.DisjointTableTypes | EfiLdr/Support.c:160-223 | for every table of entries that share no byte, exactly which pages are of type 7, 9, 10 and 0, with which attribute, and that there are no others |
| MemoryMap.BestIsHighest | EfiLdr/Support.c:107-129 | the search finds the eligible descriptor with the highest start among those before the first one that stops it |
| MemoryMap.AllocatedMeaning | EfiLdr/Support.c:90-149 | an allocation changes nothing or retypes an aligned run of free pages below 4 GB and nothing else, in at most one more slot |
| MapTypes.AllocatedIsHighest | EfiLdr/Support.c:107-148 | an allocation fails if and only if no free memory that ends between 1 MB and 4 GB is large enough before the search ends, and is otherwise the end of the highest |
| DescriptorTable.Table.AddMemoryDescriptor | EfiLdr/Support.c:22-88 | the loop over the array in place computes the value-level result |
| DescriptorTable.Table.CarveSlot | EfiLdr/Support.c:47-73 | one slot is shrunk, retyped or split as on values |
| DescriptorTable.Table.GenMemoryMap | EfiLdr/Support.c:151-223 | the loop over the E820 table computes the generated map |
| DescriptorTable.Table.FindSpace | EfiLdr/Support.c:90-149 | the search and the split in place compute the allocation |
| BootLoader.HandoffIsContiguous | EfiLdr/EfiLoader.c:158-279 | if the highest free descriptor holds everything, firmware volume, DxeIpl with log and DxeCore with log are adjacent descending blocks at its end, and nothing else changes type |
| MapTypes.HandoffTypes | EfiLdr/EfiLoader.c:158-279 | page by page, type and attribute of what is taken for the volume, the images and their logs; all others keep theirs |
| MapTypes.HandoffPlaces | EfiLdr/EfiLoader.c:310-318 | the addresses and lengths handed over, each image with its log |
| BootLoader.LoadPeImage | EfiLdr/PeLoader.c:230-234 | the two allocations of an image, and the merge with its log |
| BootLoader.EfiLoader | EfiLdr/EfiLoader.c:130-279 | the whole run from the E820 table computes the handoff; 64 descriptors suffice for 29 entries |
| FixupMerge.LogBelowIff | EfiLdr/Support.c:90-149 | the second allocation ends where the first begins if and only if the map before has room for it there: in what is left of the first one's descriptor, or, if nothing is, in the highest memory listed before it |
| FixupMerge.MergeIsRightIff | EfiLdr/PeLoader.c:526-531 | the range reported for an image and its log is exactly the memory taken for them if and only if the map before meets that condition |
| FixupMerge.LogElsewhere | EfiLdr/PeLoader.c:526-531 | a map that does not: the range starts on a page that belongs to nobody |
| FixupMerge.LogAcross | EfiLdr/PeLoader.c:526-531 | a map that does, though image and log come from different descriptors |
| HobLayout.CollectedIsFree | DxeIpl/HobGeneration.c:634-677 | the ranges collected above 1 MB and 4 GB are free memory, though adjacent descriptors are joined |
| HobCollect.StepMeans | DxeIpl/HobGeneration.c:634-677 | what each descriptor that is reached does to the two ranges: begins one, extends it, or neither; and which one ends the loop |
| HobCollect.CollectedComplete | DxeIpl/HobGeneration.c:634-677 | no free memory is missed: what begins a range or begins where it ended is in it, above 1 MB and above 4 GB |
| HobCollect.BegunIff | DxeIpl/HobGeneration.c:634-677 | a range has begun if and only if free memory that counts for it has been reached |
| HobCollect.TablesMap | DxeIpl/X64/Paging.c:201-227 | three levels of at most 512 entries that together map exactly the physical address space, and the number of tables that they need |
| HobLayout.TableSize | DxeIpl/X64/Paging.c:201-227 | how large the page tables are: up to 44 bits they fit the memory set aside, from 45 they do not |
| HobLayout.LayoutMeaning | DxeIpl/DxeInit.c:191-234 | a layout in order is a descending stack of disjoint regions: volumes, stack, page tables and descriptors, free memory, HOBs, tiling up to the end of the memory, on IA32 to its end modulo 2^32 |
| HobCollect.PlacesMean | DxeIpl/DxeInit.c:191-234 | every address of a layout in order, in bytes below the end of the memory |
| HobCollect.TopMeans | DxeIpl/HobGeneration.c:689 | where memory ends for a pointer of 64 and of 32 bits |
| HobCollect.ConstantsMean | DxeIpl/HobGeneration.h:27-29 | the sizes that the layout is made of |
| HobLayout.InOrderIff | DxeIpl/X64/Paging.c:189-252 | given room for it, the layout is in order if and only if (on X64) 21 to 44 address bits are reported and the table size plus 128 MB is at most the address of the stack's bottom |
| HobLayout.InPlaceIff | DxeIpl/DxeInit.c:191-234 | for memory of any length, the layout is in order, inside that memory and where pointers reach if and only if the volumes and `CONSUMED_MEMORY` fit between its start and its end, the end taken modulo 2^32 on IA32 (`DxeIpl/HobGeneration.c:689`), and on X64 that condition is met |
| HobLayout.BelowGB4 | DxeIpl/HobGeneration.c:689 | memory that ends at or below 4 GB gets the same layout on X64 and IA32, but for the page tables and what is put right below them |
| HobLayout.StartsAboveGB4 | DxeIpl/HobGeneration.c:689-701 | on IA32 all memory that starts at 4 GB or above gets a layout below it, and the length reported for it wraps around |
| HobLayout.EndsAboveGB4 | DxeIpl/HobGeneration.c:689-967 | on IA32 no memory that ends less than the volumes and `CONSUMED_MEMORY` above a multiple of 4 GB has its layout in order, however long it is |
| HobLayout.OutOfReach | DxeIpl/HobGeneration.c:689-967 | two such ranges, one of which X64 lays out right |
| HobLayout.AreasInVolumes | DxeIpl/HobGeneration.c:925-947 | the NV areas lie one after the other inside their volumes |
| HobLayout.HobTemplate.PrepareHobMemory | DxeIpl/HobGeneration.c:591-690 | the loop over the descriptors collects those ranges; returns the end of the range above 1 MB, cut to a pointer; low memory ends at the EBDA if that is between 0x9A000 and 0x9F800, and else at 0x9F800 |
| HobLayout.HobTemplate.PrepareHobNvStorage | DxeIpl/HobGeneration.c:896-949 | the volumes are the highest that fit on a page boundary below the given address, of which 0 stands for the end of the address space, with every area inside its own; below 192 KB they wrap around |
| HobLayout.HobTemplate.CompleteHobGeneration | DxeIpl/HobGeneration.c:989-1005 | the allocation reported reaches exactly to the stack, and the range above 1 MB ends at the lower of its end and the top of memory |
| HobLayout.HobTemplate.DxeInit | DxeIpl/DxeInit.c:166-234 | the steps in their order produce that layout, or hang where the page tables do; memory above 4 GB is reported as it was found |
| HobLayout.BootMeaning | DxeIpl/DxeInit.c:183-234 | over the whole boot the memory finally reported is free, ends below the volumes and meets nothing that was loaded; the one length computed covers DxeCore and DxeIpl |
| HobLayout.BootRegions | DxeIpl/DxeInit.c:191-234 | volumes, stack, page tables, descriptors and HOBs lie in pages that are free after the load and meet nothing that was loaded |
| Raster.CutPainted | BiosVideoThunkDxe/BiosVideo.c:2299-2437 | what was painted into a rectangle is what is cut out of it |
| VbeBlt.PackAt | BiosVideoThunkDxe/BiosVideo.c:2401-2423 | pixel i of a row drawn is the i-th colour |
| VbeBlt.Screen.AllPixelsAt | BiosVideoThunkDxe/BiosVideo.c:2299-2316 | row i of a rectangle read is the row of the screen at its place |
| VbeBlt.UnpackAt | BiosVideoThunkDxe/BiosVideo.c:2299-2316 | pixel i of a row read is the i-th pixel of its bytes |
| BltBounds.ColorsMean | BiosVideoThunkDxe/BiosVideo.c:2288-2301 | at which byte of the caller's buffer the colours of each row are, with a Delta and without |
| VbeBlt.Screen.Transfer | BiosVideoThunkDxe/BiosVideo.c:2108-2173 | bytes, dwords and bytes up to and from an aligned address are a plain copy |
| VbeBlt.Screen.CopyVideoBuffer | BiosVideoThunkDxe/BiosVideo.c:2086-2174 | copies a row of the shadow buffer to its place in the frame buffer and changes nothing else |
| VbeBlt.Screen.VideoToVideo | BiosVideoThunkDxe/BiosVideo.c:2319-2352 | the destination takes the same rows in both buffers; they are what the source held before the move, whatever the overlap, if the source is on the screen, or anywhere in the shadow buffer and the move goes down in memory or its rows lie in scan lines |
| VbeBlt.Screen.VideoFill | BiosVideoThunkDxe/BiosVideo.c:2354-2399 | the rectangle and nothing else takes the colour, in both buffers |
| VbeBlt.Screen.BufferToVideo | BiosVideoThunkDxe/BiosVideo.c:2401-2437 | every row of the buffer appears in the rectangle, in both buffers |
| VbeBlt.Screen.VideoToBuffer | BiosVideoThunkDxe/BiosVideo.c:2299-2317 | the pixels of the rectangle arrive at their places in the buffer, the rest of which is kept |
| BltBounds.PassesIff | BiosVideoThunkDxe/BiosVideo.c:2264-2280 | which rectangles pass the check with its sums in machine words |
| BltBounds.CheckedIff | BiosVideoThunkDxe/BiosVideo.c:2264-2280 | a rectangle that passes is on the screen if and only if neither sum wraps around, and all that are on it pass |
| BltBounds.PassesOffScreen | BiosVideoThunkDxe/BiosVideo.c:2264-2280 | on every screen a pixel before the first line and one before the first column pass |
| VbeBlt.Screen.Blt | BiosVideoThunkDxe/BiosVideo.c:2204-2445 | refuses, draws or strays off the screen exactly as that check decides; whatever the buffers hold, after drawing a visible byte agrees if and only if it did before or was painted, so agreement is kept, and made by a transfer over the whole screen |
| VbeBlt.PaintBoth | BiosVideoThunkDxe/BiosVideo.c:2319-2437 | painting the same into any two buffers makes agree what is painted and leaves the rest as it was; painting all that is visible makes them agree |
| VbeBlt.ReadBackWritten | BiosVideoThunkDxe/BiosVideo.c:2299-2437 | reading a rectangle just written gives each colour as the mode represents it |
| VbePixel.UnpackPack | BiosVideoThunkDxe/BiosVideo.c:2307-2412 | for channels in any order a colour read back is the colour cut to the channels' widths, whatever bits of the next pixel the 32-bit read picks up |
| VbePixel.ShuffledBack | BiosVideoThunkDxe/BiosVideo.c:2307-2412 | the bytes of a pixel hold the colour cut to the low bits of each channel, and reading them gives that colour |
| VbePixel.ChannelsHold | BiosVideoThunkDxe/BiosVideo.c:2360-2412 | the bits of each channel of a pixel drawn hold that channel of the colour |
| VbePixel.ChannelsRead | BiosVideoThunkDxe/BiosVideo.c:2307-2312 | each channel of a colour read is what those bits hold |
| VbePixel.EightBitsReadBack | BiosVideoThunkDxe/BiosVideo.c:1623-1656 | in a mode with channels of eight bits every colour drawn is read back unchanged |
| VgaPlanes.Tables | BiosVideoThunkDxe/BiosVideo.c:36-40 | the three mask tables, number by number |
| VgaPlanes.PaletteTable | BiosVideoThunkDxe/BiosVideo.c:45-65 | the sixteen colours, number by number |
| VgaPlanes.ConvertMeans | BiosVideoThunkDxe/BiosVideo.c:2598-2601 | which bit of a converted colour says what of its channels |
| VgaBlt.PixelMeans | BiosVideoThunkDxe/BiosVideo.c:2559-2579 | in which bit of which plane each bit of a pixel's colour is |
| VgaPlanes.PaintedColor | BiosVideoThunkDxe/BiosVideo.c:2852-2884 | a latched write in mode 2 sets exactly the pixels of the mask, in all four planes |
| VgaPlanes.PaletteRoundTrip | BiosVideoThunkDxe/BiosVideo.c:45-65 | reading and writing a pixel keeps its colour except for five colours; a second round changes nothing |
| VgaBlt.PlanSelects | BiosVideoThunkDxe/BiosVideo.c:2810-2828 | left mask, middle run and right mask select the pixels of the rectangle and no others, except for one whole byte, for which they select none |
| VgaBlt.FillColumns | BiosVideoThunkDxe/BiosVideo.c:2810-2828 | the computation of those masks and counts |
| VgaBlt.Vga.VideoFill | BiosVideoThunkDxe/BiosVideo.c:2809-2943 | sets exactly the pixels of the rectangle and changes no other bit; does nothing at all for one whole byte |
| VgaBlt.WrittenNext | BiosVideoThunkDxe/BiosVideo.c:2983-3004 | one write of a pass colours pixel X+i of the line and no other |
| VgaBlt.Vga.PutLine | BiosVideoThunkDxe/BiosVideo.c:2971-3013 | eight passes with a rotating mask and an address carry write every pixel of a line its own colour, and the mask comes back around |
| VgaBlt.Vga.BufferToVideo | BiosVideoThunkDxe/BiosVideo.c:2945-3014 | every pixel of the rectangle takes the converted colour of its place in the buffer, all others are kept |
| VgaBlt.Vga.ReadBitPlanes | BiosVideoThunkDxe/BiosVideo.c:2493-2543 | the copy in memory has all four planes of the rectangle |
| VgaBlt.Vga.ConvertToOutputColor | BiosVideoThunkDxe/BiosVideo.c:2559-2579 | collects the four bits of a pixel and returns its palette colour |
| VgaBlt.Vga.VideoToBuffer | BiosVideoThunkDxe/BiosVideo.c:2733-2761 | the palette colours of the rectangle arrive at their places in the buffer, the rest of which is kept |
| VgaBlt.ReadBack | BiosVideoThunkDxe/BiosVideo.c:2733-3014 | drawing a buffer and reading it back gives palette[VgaConvertColor(p)] for each of its pixels |
| VgaBlt.RedrawKeepsIff | BiosVideoThunkDxe/BiosVideo.c:2733-3014 | drawing a rectangle with what was read back from it keeps the screen if and only if none of five colours is in it |
| VgaBlt.Vga.Redraw | BiosVideoThunkDxe/BiosVideo.c:2733-3014 | reading a rectangle into a buffer and drawing it from there keeps the screen if and only if none of five colours is in it |
| VgaBlt.Vga.Blt | BiosVideoThunkDxe/BiosVideo.c:2629-3021 | refuses, draws or strays off the screen exactly as the check with its wrapping sums decides, and the three operations |
| PeReloc.ByteKept | EfiLdr/PeLoader.c:462-520 | relocation leaves every byte outside the listed fields alone |
| PeReloc.FieldRelocated | EfiLdr/PeLoader.c:462-520 | fields that share no byte are each adjusted exactly once, modulo their size |
| RelocMeaning.HalvesMean | EfiLdr/PeLoader.c:469-485 | a 16-bit field of kind 2 is raised by the distance, and one of kind 1 by its upper part, modulo 2^16 |
| RelocMeaning.WordsMean | EfiLdr/PeLoader.c:487-495 | a 32-bit field is raised by the distance, modulo 2^32 |
| RelocMeaning.LongsMean | EfiLdr/PeLoader.c:497-505 | a 64-bit field is raised by the distance, modulo 2^64 |
| RelocMeaning.OthersMean | EfiLdr/PeLoader.c:462-505 | no other byte is changed |
| RelocMeaning.EntryMeans | EfiLdr/PeLoader.c:461-465 | the n-th 16 bits e of a block for page va ask for kind e / 0x1000 at va + e % 0x1000 |
| RelocMeaning.BlockMeans | EfiLdr/PeLoader.c:446-450 | a block is its page, its size and its entries from byte 8 on, and the next one follows it |
| RelocMeaning.DirectoryEnds | EfiLdr/PeLoader.c:446-454 | where the directory ends: at its length, at a block past the image, or at one of size zero |
| RelocMeaning.VerdictMeans | EfiLdr/PeLoader.c:451-516 | done, failed or hung, by the first item that cannot be carried out |
| RelocMeaning.LogMeans | EfiLdr/PeLoader.c:466-505 | where the log has each field, aligned to its size for four and eight bytes |
| RelocMeaning.InsideMeans | EfiLdr/PeLoader.c:429-434 | which directories are looked at, their end a sum of 32 bits |
| LittleEndian.FourBytesMean | EfiLdr/PeLoader.c:487-505 | the number that four bytes make, the first the lowest |
| LittleEndian.EightBytesMean | EfiLdr/PeLoader.c:497-505 | the number that eight bytes make, the first the lowest |
| PeReloc.RestoresIff | EfiLdr/PeLoader.c:462-520 | there and back restores the image if and only if no field holds just a high half or the distance is a multiple of 64 KB, and on IA32 no field has 64 bits or the distance is zero |
| PeReloc.SameItems | EfiLdr/PeLoader.c:446-524 | the directory says the same after changes outside it |
| PeReloc.RelocateBackIff | EfiLdr/PeLoader.c:405-534 | the same for a whole image, the directory read anew from the relocated image |
| PeReloc.LogFits | EfiLdr/PeLoader.c:436-505 | after k entries the aligned log pointer is at most k words along, words of eight bytes or of four without 64-bit fields |
| PeReloc.ItemsCount | EfiLdr/PeLoader.c:436-446 | a tiled directory has at most one entry to two of its bytes |
| PeReloc.LogHolds | EfiLdr/PeLoader.c:466-505 | the log holds, entry by entry, what the relocated image holds in each field |
| PeReloc.RelocateOne | EfiLdr/PeLoader.c:462-516 | one entry of each kind, with its log entry; an unknown kind changes nothing and hangs |
| PeReloc.RelocateBlock | EfiLdr/PeLoader.c:448-520 | the entries of a block in turn, up to one that is not known |
| PeReloc.Relocate | EfiLdr/PeLoader.c:405-534 | terminates or hangs where it must, with the right status, and leaves image and log as if the directory had been read before anything changed |
| PeSections.SectionLoaded | EfiLdr/PeLoader.c:336-352 | byte i of a section is raw byte i, and zero beyond the raw data |
| SectionMeaning.HeaderMeans | EfiLdr/PeLoader.c:316-350 | at which bytes of a header its address, its sizes and its raw pointer are |
| SectionMeaning.AcceptedMeans | EfiLdr/PeLoader.c:318-328 | exactly which sections pass the check with its sum of 32 bits |
| SectionMeaning.PassingMeans | EfiLdr/PeLoader.c:313-359 | the sections loaded are those of the table, in order, up to the first that does not pass |
| SectionMeaning.ContentsMean | EfiLdr/PeLoader.c:336-352 | what loading one section does to each byte of memory, also where sections overlap |
| PeSections.OutsideKept | EfiLdr/PeLoader.c:311-359 | bytes outside the sections are kept |
| PeSections.SectionsKept | EfiLdr/PeLoader.c:301-310 | the table reads the same after loading |
| PeSections.LoadSections | EfiLdr/PeLoader.c:313-359 | loads the sections up to the first that is not accepted, reading the table from the memory it fills |
| PeSections.AcceptedInsideIff | EfiLdr/PeLoader.c:318-350 | an accepted section is written inside the image if and only if its end does not wrap around 32 bits and its raw data ends there too |
| PeSections.WrapRunsOut | EfiLdr/PeLoader.c:318-350 | for every image a section that passes with an end that wraps around |
| PeSections.RawRunsOut | EfiLdr/PeLoader.c:336 | for every image a section that passes with raw data that runs out of it |
| PeSections.LoadStaysInside | EfiLdr/PeLoader.c:313-359 | if all sections that pass meet both conditions, nothing behind the image is written |
| Chs.JoinSplit | BlockIoDxe/BiosInt13.c:1162-1191 | the comparison of CheckLba with the block never fails |
| Chs.SplitMeans | BlockIoDxe/BiosInt13.c:1162-1165 | blocks are numbered sector by sector, head by head, cylinder by cylinder |
| Chs.RegistersMean | BlockIoDxe/BiosInt13.c:1183-1195 | which bits of CH, CL and DH hold cylinder, sector and head |
| Chs.SplitJoin | BlockIoDxe/BiosInt13.c:1162-1165 | every address in the geometry is that of its block |
| Chs.OnDiskIff | BlockIoDxe/BiosInt13.c:75-79 | the blocks up to LastBlock are exactly those with an address in the geometry |
| Chs.EncodesIff | BlockIoDxe/BiosInt13.c:1183-1195 | the registers name an address if and only if cylinder < 1024, head < 64 and sector < 64 |
| Chs.AddressedIff | BlockIoDxe/BiosInt13.c:1162-1195 | the firmware is asked for the block meant if and only if the block lies in the first 1024 cylinders |
| Chs.AddressedWraps | BlockIoDxe/BiosInt13.c:1162-1195 | it is asked for the block meant modulo the number of blocks in 1024 cylinders |
| Chs.WrappedMeans | BlockIoDxe/BiosInt13.c:1162-1195 | wrapping is the remainder of a division |
| Chs.SameTrack | BlockIoDxe/BiosInt13.c:1168-1172 | blocks up to the end of a track have one cylinder and head and consecutive sectors |
| BlockPlan.AdmittedIff | BlockIoDxe/BiosInt13.c:450-480 | I/O is done exactly for requests of at least one block, all on the disk, by the current media ID, after no fatal error |
| BlockPlan.AnswersMean | BlockIoDxe/BiosInt13.c:450-480 | when each status is returned: Success if and only if all blocks are transferred or an empty request is in range, and which of the others for every request that is not |
| BlockPlan.EmptyRequest | BlockIoDxe/BiosInt13.c:458-472 | an empty request succeeds except at block 0 |
| BlockPlan.LimitIff | BlockIoDxe/BiosInt13.c:482-500 | pieces are not empty and their count fits its byte exactly for block sizes from 255 to 0xFE00 |
| BlockPlan.PlanTiles | BlockIoDxe/BiosInt13.c:484-536 | the pieces partition the request, each within its limit |
| BlockPlan.PlanMeans | BlockIoDxe/BiosInt13.c:484-500 | each piece is as long as 0xFE00 bytes, or the end of the track, allow, and shorter only at the end of the request |
| BlockPlan.PieceOnTrack | BlockIoDxe/BiosInt13.c:1168-1172 | no piece of a legacy request crosses a track |
| BlockPlan.WhereIff | BlockIoDxe/BiosInt13.c:1162-1195 | a block is reached at its own place if and only if the interface is extended or the block lies in the first 1024 cylinders |
| BlockPlan.ReadAll | BlockIoDxe/BiosInt13.c:484-536 | when all pieces are read and every block is reached at its own place, the buffer starts with that part of the disk |
| BlockPlan.WrittenAll | BlockIoDxe/BiosInt13.c:1001-1070 | when all pieces are written and every block is reached at its own place, that part of the disk and no other holds the data |
| BlockPlan.SpreadIff | BlockIoDxe/BiosInt13.c:1162-1195 | no two blocks of a request share a place on the disk if and only if the interface is extended or they are no more than 1024 cylinders hold |
| BlockPlan.ReadBackWritten | BlockIoDxe/BiosInt13.c:938-1075 | what is read after a write is what was written last to the place of each block, and all of the buffer if no two of its blocks share a place |
| BlockIo.Drive.LegacyRead | BlockIoDxe/BiosInt13.c:1174-1202 | calls until one succeeds, reports a changed disk or three have failed; success means the blocks of the disk, failure without a change of disk changes nothing |
| BlockIo.Drive.LegacyWrite | BlockIoDxe/BiosInt13.c:1355-1387 | calls until one succeeds, reports a changed disk or three have failed, each repeating the same write |
| BlockIo.Drive.HandleFailure | BlockIoDxe/BiosInt13.c:1207-1240 | a changed disk gets a new media ID and its parameters, write protection and other errors are told apart; the error code is that of the failed call, or of a call that identified the disk |
| BlockIo.Drive.Reset | BlockIoDxe/BiosInt13.c:729-764 | fails, and overwrites the error code, only when a second attempt fails after AL was 5; the disk and the media ID are kept |
| BlockIo.Drive.ReadBlocks | BlockIoDxe/BiosInt13.c:421-540 | reads by all three interfaces: the status for every request, apart from how it is decided; refused without I/O, or the blocks at the places reached, or a right prefix with the rest untouched behind a transfer buffer; a new media ID exactly if a call reported a changed disk |
| BlockIo.Drive.WriteBlocks | BlockIoDxe/BiosInt13.c:938-1075 | writes by all three interfaces: the status for every request; the blocks at the places reached and no other, or a written prefix; a new media ID exactly if a call reported a changed disk |
| BlockRun.IdCounts | BlockIoDxe/BiosInt13.c:1207-1222 | over a run the media ID counts the changes of disk, modulo 2^32 |
| BlockRun.CurrentIff | BlockIoDxe/BiosInt13.c:1207-1222 | with fewer than 2^32 changes an earlier media ID is current if and only if no change came in between |
| BlockRun.ComesAround | BlockIoDxe/BiosInt13.c:1207-1222 | after 2^32 changes it is current again |
| BlockRun.StaleDoesNoIo | BlockIoDxe/BiosInt13.c:450-452 | in every run a request with a media ID from before a change makes no call and leaves disk and buffer alone |
| BlockRun.StuckIff | BlockIoDxe/BiosInt13.c:746-757 | over a run a fatal error code lasts if and only if no reset fails with another one |
| BlockRun.DoesIoIff | BlockIoDxe/BiosInt13.c:450-477 | a request in order does I/O if and only if the error code is not fatal, and otherwise fails and changes nothing |
| BlockRun.StuckDoesNoIo | BlockIoDxe/BiosInt13.c:474-477 | as long as no reset clears it, no request after a fatal error does I/O |
| BlockRun.Serve | BlockIoDxe/BiosInt13.c:421-1435 | every mixed run of reads, writes and resets, with current and old media IDs, is such a run, whatever the firmware answers |
| BlockIo.Drive.WriteAndRead | BlockIoDxe/BiosInt13.c:1276-1435 | a read after a write of the same blocks returns what was written last to each place, also beyond cylinder 1023, and all of it if the blocks are no more than 1024 cylinders hold |
| KeyboardWait.Keyboard.Round | BiosKeyboard/BiosKeyboard.c:928-935 | one round of polling ends with the next byte and the time counted for it, or after all its polls without one |
| KeyboardWait.Keyboard.WaitForValue | BiosKeyboard/BiosKeyboard.c:897-957 | succeeds if and only if the first byte equal to the value is read before the limit; bounded number of rounds |
| KeyboardWait.InTimeMeans | BiosKeyboard/BiosKeyboard.c:928-947 | which bytes come in time, in polls of 30 microseconds and rounds of 2185 polls |
| SearchReplace.GreedySeparate | BiosVideoThunkDxe/915resolution.c:147-157 | the replaced places are occurrences that do not overlap, at most as many as allowed |
| SearchReplace.GreedyLeftmost | BiosVideoThunkDxe/915resolution.c:147-157 | every occurrence that is not replaced reaches into one that is, or comes after the last one allowed |
| SearchReplace.InsideReplaced | BiosVideoThunkDxe/915resolution.c:148-149 | a replaced place holds the replacement |
| SearchReplace.OutsideKept | BiosVideoThunkDxe/915resolution.c:147-157 | all other bytes are kept |
| SearchReplace.BeyondKeptIff | BiosVideoThunkDxe/915resolution.c:144-157 | bytes beyond the region are kept if and only if no replaced occurrence crosses its end with different bytes |
| SearchReplace.BeyondKept | BiosVideoThunkDxe/915resolution.c:144-157 | they are kept if no occurrence starts in the last places of the region |
| SearchReplace.SearchAndReplace | BiosVideoThunkDxe/915resolution.c:133-159 | in place, the leftmost greedy replacement of what was there before, and its count; never more than the limit, and every occurrence in the region reaches into a replaced one unless that many come before it |

## Left out

- Driver binding, protocol installation, pool allocation and its failures, task priority levels: calls into services without an algorithm.
- The console's other modes, QueryMode, SetMode, Reset and TestString, its UGA branches, missing glyphs and the warning they give: the model has one mode, a glyph per character, and the graphics output branch.
- LZMA decompression and the contents of images apart from sections and relocations; headers, machine and subsystem checks, debug directory, entry point.
- The contents of HOBs and of the NV volumes, their checksums, ACPI, SMBIOS and MPS tables, the page table entries themselves.
- Mode setting, mode enumeration, EDID and the tables of resolutions; the VGA mini port.
- Moves within the VGA screen: the aligned branch always goes top-down and the other one never writes.
- The real-mode thunk: an INT 13h call is a step of an arbitrary firmware, the transfer buffer below 1 MB is what that step returns, and the address packet is its arguments.
- Flush of a drive, and how GetDriveParameters fills in the geometry of ATAPI floppies: the identity of a changed disk, and the error code that finding it out leaves, are whatever the firmware says.
- The rest of the keyboard driver: its ring buffer, notification list and scan code tables.
- HobLayout.InOrderIff: covers a range above 1 MB that holds the volumes and `CONSUMED_MEMORY` (`Roomy`); in a shorter one the HOBs have no place, which `InPlaceIff` states.
- BlockIo.Drive.ReadBlocks: for the extended interfaces, block sizes outside 255 to 0xFE00 are excluded; `LimitIff` says why.
- PeReloc.Relocate: excluded are fields outside the image or inside the directory, and a block header that begins in the last seven bytes of the directory, which the code reads and patches all the same.
- VgaBlt.Vga.Blt: says nothing of memory and buffer after a rectangle that passes the check off the screen, where the code reads or writes outside the VGA memory.
- VbeBlt.Screen.Blt: says nothing of the buffers after a rectangle that passes the check off the screen, where the code reads or writes outside them.  A Delta that is no multiple of four, with which the rows of a buffer begin inside its pixels, is not modelled: a buffer is a sequence of pixels.
- VbeBlt.Screen.VideoToVideo: says nothing of the rows moved up in memory from a source whose rows cross scan lines; they may have been overwritten before they are read.
- VbeBlt.Screen.VideoToBuffer: the code reads four bytes for every pixel and so up to three bytes past the end of the shadow buffer for the last one; the model reads the bytes of the pixel.

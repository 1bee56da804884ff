# Verified model of the memory layers of Volatility 3

A Dafny 4.11 project that models the stack of memory layers of Volatility 3, some of the
machinery around it, and the thread pool of the service that runs it, and proves what this
code promises. `dafny verify dfyconfig.toml` checks the whole project.

## What is modelled

A translation layer turns a range of addresses into pieces of the layer below, and reads,
writes and scans through those pieces. The fast forms the layers use agree with simple
definitions by address:

- `Bits`, `Memory`, `Pieces`: bit fields and the mask of the source; the buffer at the
  bottom of the stack; what a list of pieces means, as a map from addresses to places.
- `PageTables`, `SystemEntries`, `IntelManual`, `PagedSpace`: the page-table walk, written once
  for the 32-bit, PAE and 4-level formats and their Windows and Linux variants; the entry rules
  of these systems; agreement of the walk with the paging stages of the Intel SDM (Volume 3A,
  sections 4.3 to 4.5) and their reserved bits, up to the tables the layer does not take for
  tables; what a page means for the addresses inside it. `LargePages` and `PaeExample` hold
  concrete tables for what the exact conditions rule out.
- `PageMapping`, `Coalescing`, `IntelLayer`: `_mapping` with its jumps over faulting
  regions, `mapping` with its joined runs, and the layer object with the walk cache, reads
  and the validity test.
- `LinearLayer`, `Segmented`, `SegmentedLayers`: padded and strict reads, writes, `translate`, and
  sorted segments found by bisection.
- `CrashDump`: from a bitmap of pages to segments, with the two word-at-a-time paths.
- `Avml`, `SnappyFormat`, `AvmlLayer`, `AvmlRange`, `AvmlFile`, `AvmlWritten`: framed Snappy
  streams (section 4 of the Snappy framing format), written and read back; segments that decode
  as a whole; and the proof that every memory range of a file reads as its decompressed stream.
  A writer of whole files is modelled too: what it writes compressed loads and reads back, what
  it writes uncompressed never loads. Decompression is a parameter.
- `Scanning`: the chunk iterators of data layers and of translation layers.
- `SelfReference`: the test for a self-referring directory table base, and what acceptance
  means for the layer built on it.
- `Msf`: page-list streams of multi-stream files.
- `Layers`: the container of the layers.
- `Configuration`, `HierarchicalDicts`: the hierarchical configuration dictionary, as nested
  objects updated in place, against a tree and the flat dictionary the tree stands for.
- `Versions`: the search for unmet version requirements.
- `ThreadPool`: the worker pool of the service as interleaved steps.
- `Mermaid`: the parent stack of the Mermaid renderer.
- `Symbols`: the sorted index of symbols by address.

Generators become returned sequences with the exception that ends them, and exceptions become
values that carry the fields later code looks at. Loops and objects that the source updates
step by step are methods and classes here, each tied to a function of its inputs or of its old
state; the lemmas are about those functions.

## What the proofs found

- The address-range check of the walk compares an address that is already cut to the width of
  the layer, so it never fails (`PageTables.RangeTestPasses`) and high addresses alias
  (`PageTables.AddressesAlias`).
- The walk ignores the reserved bits of the manual: it maps what the manual does not exactly where
  an entry it uses sets a reserved bit. It reads every table as 4 KiB and takes one that leaves the
  memory, or is one entry repeated, as missing: it leaves out what the manual maps exactly where it
  misses a table in this way. Where both map an address they map it to the same place
  (`IntelManual.FourLevelAgrees`, `IntelManual.PaeAgrees`, `IntelManual.ThirtyTwoBitAgrees`;
  `LargePages.ReservedBitIsIgnored` is an instance).
- The PAE pointer table has 32 bytes, but the walk wants 4 KiB from its base on. One near the end of
  the memory, or with 4 KiB of equal entries from it on, is missed, and with it every address
  (`IntelManual.PaeNeedsWholeTable`, `PaeExample.PointerTableIsMissed`).
- A large page whose frame has bits below the page size is not linear inside: the in-page
  offset is ORed into them. `PagedSpace.LinearIffFrameAligned` gives the exact condition and
  `LargePages.UnalignedPageExists` an instance. `_mapping` translates the start of a chunk only
  and takes the rest of the page as linear; `PageMapping.MapPagesExact` says what it maps then.
- After a chunk that does not fit in the buffer, `_mapping` can jump to a place inside the same
  page and map the rest from there (`LargePages.RetryInsidePage`); that happens only where a
  request starts inside a page whose frame is not aligned (`PageMapping.FirstTryDecides`,
  `PageMapping.AlignedIsTranslated`).
- The 4-level layers keep 48 bits of the table root, where the manual keeps all physical bits: they
  start at the manual's table if and only if bits 48 to 51 of the root are clear
  (`IntelManual.RootIsCut`). PSE-36 pages are not followed.
- `LinuxIntelPAE` cuts frames to 32 bits (`PageTables.LinuxPaeFrames`), so the frame at four
  gigabytes becomes frame 0 (`PageTables.LinuxPaeCutsFrame`).
- An exception from `_mapping` costs `mapping` the run it has stashed, so a strict mapping that fails
  has not yielded all that it had mapped (`Coalescing.YieldedBeforeException`,
  `IntelLayer.RunsBeforeFault`).
- A read of the buffer that starts at address 0 and fails names address 0, also where the buffer has
  that byte (`Memory.FirstOutside`).
- The strict lookup in a segmented layer misses the first address of a segment that is mapped
  at or past the last byte of its base layer. `Segmented.Findable` is the exact condition and
  `Segmented.SegmentStartIsMissed` an instance. With errors ignored `translate` finds that address
  (`SegmentedLayers.SegmentedLayer.PlaceOf`).
- The AVML reader never returns on a good stream that gives no more than the expected length
  (`Avml.HangsIffTooShort`); every written stream of that length is one (`SnappyFormat.WrittenHangs`).
- The AVML loader takes from the file at most as many bytes of a stream as the range has. A range
  without compressed chunks therefore never gives enough and is never loaded
  (`AvmlWritten.PlainRangeNeverLoads`), and a file that holds memory uncompressed keeps the loader
  busy for good (`AvmlWritten.PlainFileHangs`). `AvmlFile.RangeLoadsIff` is the exact condition.
- The AVML loader ignores up to five bytes behind the last range and fails on more
  (`AvmlWritten.WrittenFileLoads`, `AvmlWritten.TrailingBytesFail`).
- The base scan iterator never ends on a section longer than a chunk if the overlap is longer
  than a chunk (`Scanning.EndsIff`, `Scanning.LongOverlapHangs`).
- The scan iterator of translation layers never joins neighbouring pieces into a chunk, although
  its comments speak of packing, so what crosses from one piece to the next is not in any chunk
  (`Scanning.RunFoundIffInOnePiece`).
- `merge` treats a stored `None` as missing.
- A pool without workers shuts down without running what it has queued
  (`ThreadPool.ShutdownWaitsForAll`), and the key of the pipeline is set even if a result could
  not be stored: every pool with a worker and a task has such a run
  (`ThreadPool.LostWriteIsNotNoticed`), and over a fresh cache all tasks are answered exactly in
  the runs without a failed write (`ThreadPool.AnsweredIffAllWritten`).

## Model

| member | source | states |
|---|---|---|
| `Bits.MaskIsXorMask` | volatility3/volatility3/framework/layers/intel.py:121-126 | selecting with the XOR of the two runs of ones gives exactly the bits `low` to `high`, in place: the field by shifts |
| `Bits.AndBit` | volatility3/volatility3/framework/layers/intel.py:259 | testing `entry & (1 << n)` is testing bit `n` |
| `Bits.Bitwise` | volatility3/volatility3/framework/layers/intel.py:121-126 | `&`, `|` and `^` work bit by bit |
| `Memory.InBoundsIff` | volatility3/volatility3/framework/layers/physical.py:42-47 | a range with bytes is valid exactly if all of them lie in the buffer, an empty one exactly if it starts behind some byte and not behind the last |
| `Memory.BufferDataLayer.Read` | volatility3/volatility3/framework/layers/physical.py:49-58 | a read succeeds exactly if both ends of the range lie in the buffer, and is that slice; otherwise the exception names the first address of the range outside the buffer, and always 0 for a range from 0 on |
| `Memory.BufferDataLayer.Write` | volatility3/volatility3/framework/layers/physical.py:60-64 | a write inside the buffer keeps its length and changes exactly the bytes under the data; data past the end is appended without a gap |
| `PageTables.WalkLocal` | volatility3/volatility3/framework/layers/intel.py:184-267 | a walk reads only the address bits above the region it ends in: addresses that agree there get the same entry or the same fault |
| `PageTables.LittleEndianByte` | volatility3/volatility3/framework/layers/intel.py:256 | an entry is unpacked with byte `i` in bits `8 * i` to `8 * i + 7` |
| `PageTables.WalkOfPageBase` | volatility3/volatility3/framework/layers/intel.py:155-182 | the walk keyed on the page base, which the cache uses, is the walk of the full address; also with the Linux page mask |
| `PageTables.TranslationLocal` | volatility3/volatility3/framework/layers/intel.py:155-178 | every address of the region a translation ends in has the same outcome: same fault and unresolved bits, or same frame and size |
| `PageTables.TranslatorIsPaged` | volatility3/volatility3/framework/layers/intel.py:155-182 | the translation over a fixed memory divides the address space into regions that translate together |
| `PageTables.RangeTestPasses` | volatility3/volatility3/framework/layers/intel.py:200-211 | the test of the address range takes the address cut to `address_mask`, which is the width of the layer, so it always passes |
| `PageTables.AddressesAlias` | volatility3/volatility3/framework/layers/intel.py:200-211 | no range test keeps high addresses out: addresses that agree below the width of the layer translate alike |
| `PageTables.LinuxPaeFrames` | volatility3/volatility3/framework/layers/intel.py:566-630 | in the Linux PAE layer a present entry keeps only frame bits below 32; its frame is the PAE frame if and only if bits 32 to 39 are clear |
| `PageTables.LinuxPaeCutsFrame` | volatility3/volatility3/framework/layers/intel.py:566-630 | a present entry for the frame at four gigabytes: the Linux PAE layer takes it for frame 0, the PAE layer does not |
| `SystemEntries.ValidityByMasks` | volatility3/volatility3/framework/layers/intel.py:492-608 | an entry is valid by the bits the source masks: present; for Windows also in transition and not a prototype; for Linux present or PROT_NONE |
| `SystemEntries.LinuxFrame` | volatility3/volatility3/framework/layers/intel.py:610-623 | a present Linux entry holds its frame; in one that is neither present nor clear every frame bit is inverted |
| `SystemEntries.InvertedReadsBack` | volatility3/volatility3/framework/layers/intel.py:610-623 | an entry stored inverted names the page of the entry it was made from |
| `IntelManual.SameTables` | volatility3/volatility3/framework/layers/intel.py:269-306 | the layer has a table exactly if the memory holds all its 4 KiB and they are not one entry repeated |
| `IntelManual.SameEntry` | volatility3/volatility3/framework/layers/intel.py:226-256 | each level of the walk reads the entry the manual names, by table base and address field, if the table is there, and nothing otherwise |
| `IntelManual.WalkNamesLastEntry` | volatility3/volatility3/framework/layers/intel.py:200-267 | a page fault names the last entry that was read and the address bits it leaves; a missing table is a fault of the entry that points to it |
| `IntelManual.FaultNamesLastEntry` | volatility3/volatility3/framework/layers/intel.py:155-168 | so does the fault of a translation, also where the last entry itself is not valid |
| `IntelManual.FourLevelAgrees` | volatility3/volatility3/framework/layers/intel.py:184-267 | 4-level paging (Intel SDM Vol. 3A, section 4.5) with its reserved bits, from the root cut to 48 bits: where the manual maps, the layer translates exactly if it has every table used, and to the same place; where the layer translates, the manual maps exactly if no entry used sets a reserved bit |
| `IntelManual.RootIsCut` | volatility3/volatility3/framework/layers/intel.py:47-73 | cutting the root to 48 bits keeps the table base if and only if bits 48 to 51 of the root are clear |
| `IntelManual.FourLevelAgreesOnRoot` | volatility3/volatility3/framework/layers/intel.py:184-267 | on such a root the layer agrees in this way with the manual on the root itself |
| `IntelManual.PaeAgrees` | volatility3/volatility3/framework/layers/intel.py:457-470 | the same for PAE paging (section 4.4), whose pointer table has 32 bytes at a 32-byte boundary |
| `IntelManual.PaeNeedsWholeTable` | volatility3/volatility3/framework/layers/intel.py:226-231 | the layer translates nothing unless the memory holds 4 KiB from the pointer table on and they are not one entry repeated |
| `PaeExample.PointerTableIsMissed` | volatility3/volatility3/framework/layers/intel.py:226-231 | two pages of memory, the pointer table inside the second: the manual maps the first two megabytes to themselves, the layer translates none of them |
| `IntelManual.ThirtyTwoBitAgrees` | volatility3/volatility3/framework/layers/intel.py:22-44 | the same for 32-bit paging (section 4.3) without PSE-36 |
| `LargePages.ReservedBitIsIgnored` | volatility3/volatility3/framework/layers/intel.py:259-265 | a page directory with one entry that sets a reserved bit: the layer translates its page, the manual does not map it |
| `PagedSpace.LinearIffFrameAligned` | volatility3/volatility3/framework/layers/intel.py:169-178 | translation is linear inside a page exactly if the frame has no bits below the page size |
| `LargePages.UnalignedPageExists` | volatility3/volatility3/framework/layers/intel.py:169-178 | a page directory over twelve kilobytes whose first page is not linear |
| `PagedSpace.SmallPagesAreLinear` | volatility3/volatility3/framework/layers/intel.py:169-178 | it is always linear inside a 4 KiB page |
| `PageMapping.SkipIsSafe` | volatility3/volatility3/framework/layers/intel.py:402-436 | the jump past a page fault ends at the next region boundary, and every address it passes faults in the same way |
| `PageMapping.MapPagesExact` | volatility3/volatility3/framework/layers/intel.py:380-436 | for any frames, with errors ignored: the pieces send an address as far behind the translation of its chunk's start as it is behind that start, exactly if some try of its page reaches a place from which the rest of the page can be read, and map nothing else |
| `PageMapping.StrictFailsIffUncovered` | volatility3/volatility3/framework/layers/intel.py:380-436 | for any frames, without ignoring errors: the mapping raises exactly if some address of the request is not covered; otherwise it is the tolerant mapping |
| `PageMapping.CoveredInBuffer` | volatility3/volatility3/framework/layers/intel.py:380-436 | the place of a covered address lies in the buffer |
| `PageMapping.StrictStops` | volatility3/volatility3/framework/layers/intel.py:402-436 | a strict mapping that fails has mapped everything before the first address that is not covered, and raises the exception for that one |
| `PageMapping.FirstTryDecides` | volatility3/volatility3/framework/layers/intel.py:380-436 | where the request starts outside a page, or is covered whole, the chunk starts at the later of page and request, and is mapped exactly if the buffer holds it |
| `PageMapping.AlignedIsTranslated` | volatility3/volatility3/framework/layers/intel.py:380-436 | over a frame without bits below the page size an address goes where it translates to, exactly if the last address of its chunk translates into the buffer |
| `LargePages.RetryInsidePage` | volatility3/volatility3/framework/layers/intel.py:402-436 | a request that starts inside a large page: the first try needs bytes past the end of the buffer, the jump lands inside the page, and the next try maps the rest |
| `PageMapping.MapPagesCoversTranslatable` | volatility3/volatility3/framework/layers/intel.py:380-436 | if every translated frame can be read, the tolerant mapping covers exactly the addresses that translate |
| `PageMapping.MapPagesShape` | volatility3/volatility3/framework/layers/intel.py:380-436 | the pieces ascend, share no address, stay in the request, map byte for byte, and lie in the buffer |
| `Coalescing.CoalesceRuns` | volatility3/volatility3/framework/layers/intel.py:324-378 | the loop with its stashed run computes the joined runs; an exception from below loses the stashed one |
| `Coalescing.YieldedBeforeException` | volatility3/volatility3/framework/layers/intel.py:336-378 | whatever maximal list denotes the pieces of `_mapping`: it is what is yielded, without its last run if an exception comes |
| `Coalescing.CoalesceMeaning` | volatility3/volatility3/framework/layers/intel.py:324-378 | joining runs keeps the map from bytes to places and the total length |
| `Coalescing.CoalesceMappingShape` | volatility3/volatility3/framework/layers/intel.py:324-378 | joined runs still ascend, stay in the request and are maximal: no two neighbours continue each other |
| `Coalescing.MaximalIsCanonical` | volatility3/volatility3/framework/layers/intel.py:324-378 | an ascending maximal list is determined by the map it denotes, so `mapping` returns the only such list |
| `IntelLayer.Intel.WalkTables` | volatility3/volatility3/framework/layers/intel.py:184-267 | the loop over the levels computes the walk |
| `IntelLayer.Intel.TranslateEntryCached` | volatility3/volatility3/framework/layers/intel.py:184-186 | the bounded cache never changes the answer of a walk over an unchanging base layer |
| `IntelLayer.Intel.TranslateAddress` | volatility3/volatility3/framework/layers/intel.py:155-178 | frame, in-page offset and page fault of one address |
| `IntelLayer.Intel.TryChunk` | volatility3/volatility3/framework/layers/intel.py:393-418 | one chunk of the loop of `_mapping`: its piece, or the exception and how far to skip |
| `IntelLayer.Intel.MapNonEmpty` | volatility3/volatility3/framework/layers/intel.py:402-436 | the loop over `offset` and `length` computes the pieces of the request |
| `IntelLayer.Intel.MapChunks` | volatility3/volatility3/framework/layers/intel.py:380-436 | the same with the branch for an empty request |
| `IntelLayer.TranslateMeaning` | volatility3/volatility3/framework/layers/intel.py:389-401 | an empty request gives one empty piece, at the place of the address, exactly if the buffer holds its byte; otherwise nothing, or the exception for the address |
| `IntelLayer.Intel.MapRuns` | volatility3/volatility3/framework/layers/intel.py:324-378 | `mapping` is the joined runs of `_mapping` |
| `IntelLayer.RunsMeaning` | volatility3/volatility3/framework/layers/intel.py:324-436 | the joined runs send exactly the covered addresses to their places; without ignoring errors they exist exactly if all are covered, an empty request being tested like one byte |
| `IntelLayer.RunsBeforeFault` | volatility3/volatility3/framework/layers/intel.py:324-436 | a strict mapping that fails has yielded the runs before the last one that is covered: each address before that run goes to its place, none from there on; the exception is that of the first address not covered |
| `IntelLayer.ReadMeaning` | volatility3/volatility3/framework/layers/linear.py:40-67 | for any frames and any length: when a read through the runs succeeds, and that it shows at each covered address the byte of its place, and zero elsewhere |
| `IntelLayer.Intel.IsValid` | volatility3/volatility3/framework/layers/intel.py:308-318 | true exactly if every address of the range is covered, which is when the strict read succeeds; an empty range counts as one byte |
| `IntelLayer.Intel.PlaceOf` | volatility3/volatility3/framework/layers/linear.py:17-34 | `translate` gives the translated address exactly if the buffer holds its byte; otherwise nothing, or the exception for the address |
| `IntelLayer.Intel.Read` | volatility3/volatility3/framework/layers/linear.py:40-67 | exactly `length` bytes: the byte of its place at each covered address, zero elsewhere; padded, a read always succeeds; strict, exactly if all addresses are covered, and otherwise it raises the exception for the first that is not |
| `IntelLayer.AlignedByte` | volatility3/volatility3/framework/layers/linear.py:40-67 | over an aligned frame a covered address translates into the buffer, and the byte shown is the byte there |
| `LinearLayer.Read` | volatility3/volatility3/framework/layers/linear.py:40-67 | exactly `length` bytes, each the mapped byte or zero; it fails exactly on a mapping exception, a gap without padding or an unreadable piece, with the exception of the first of them; the overlap exception is never raised |
| `LinearLayer.Write` | volatility3/volatility3/framework/layers/linear.py:69-87 | the parts of the value go below the pieces in order up to the first gap, which is the error reported |
| `LinearLayer.StoredFrame` | volatility3/volatility3/framework/layers/linear.py:69-87 | a write keeps the length of the buffer and every byte that no piece names |
| `LinearLayer.WriteReadRoundTrip` | volatility3/volatility3/framework/layers/linear.py:40-87 | over pieces that cover the range and share no byte below, a read returns what was written |
| `Segmented.BisectRight` | volatility3/volatility3/framework/layers/segmented.py:67-72 | `bisect_right` for the key `(offset, max)`: before it no segment is above the key, from it on all are |
| `Segmented.FindSegment` | volatility3/volatility3/framework/layers/segmented.py:60-89 | bisection finds the segment a linear search finds, except for the first address of a segment mapped at or past the end of the base layer |
| `Segmented.FindNext` | volatility3/volatility3/framework/layers/segmented.py:60-89 | with `next`, the first segment above the key |
| `Segmented.SegmentStartIsMissed` | volatility3/volatility3/framework/layers/segmented.py:60-89 | a concrete segment, mapped at the last byte of its base layer, whose first address the lookup misses and whose next address it finds |
| `Segmented.NextPiece` | volatility3/volatility3/framework/layers/segmented.py:91-142 | one turn of the loop: the next piece, with nothing covered before it; nothing more; or the exception |
| `Segmented.Map` | volatility3/volatility3/framework/layers/segmented.py:91-142 | the pieces ascend, are cut from segments, each to the bounds of the request, and cover what the segments cover; an empty request gives one empty piece where the address goes; without ignoring errors the mapping raises exactly if a needed address is not found, at the first such address; the loop ends |
| `SegmentedLayers.SegmentedLayer.MapLinear` | volatility3/volatility3/framework/layers/segmented.py:180-187 | the pieces of the linear layer send each address of the request to where its segment sends it |
| `SegmentedLayers.SegmentedLayer.PlaceOf` | volatility3/volatility3/framework/layers/linear.py:17-34 | `translate` gives the target of the address exactly if the lookup finds it; with errors ignored also where the strict lookup misses the first address of a segment |
| `SegmentedLayers.SegmentedLayer.Read` | volatility3/volatility3/framework/layers/linear.py:40-67 | a read succeeds exactly if every needed address is found (unless padding) and its bytes can be read; each byte is the segment's or zero; if only an address is missing the exception names the first one |
| `SegmentedLayers.SegmentedLayer.Write` | volatility3/volatility3/framework/layers/linear.py:69-87 | over segments disjoint in the file: a write changes only bytes its range stands for, and no byte shown at another address; it fails exactly if an address is not found, at the first one; what it wrote is what the layer then shows |
| `SegmentedLayers.TargetInjective` | volatility3/volatility3/framework/layers/segmented.py:180-187 | over such segments no two addresses stand for the same byte of the file |
| `CrashDump.MappedIsBitOfBitmap` | volatility3/volatility3/framework/layers/crash.py:137-170 | page `p` is in the dump exactly if bit `p` of the bitmap, read as one little-endian number, is set |
| `CrashDump.ScanOnes` | volatility3/volatility3/framework/layers/crash.py:130-203 | the path for a word of ones is the bit-by-bit scan of its 32 pages |
| `CrashDump.ScanZeros` | volatility3/volatility3/framework/layers/crash.py:130-203 | so is the path for a word of zeros |
| `CrashDump.ScanBits` | volatility3/volatility3/framework/layers/crash.py:160-190 | the bit-by-bit path computes the scan one page at a time |
| `CrashDump.LoadSegments` | volatility3/volatility3/framework/layers/crash.py:130-203 | the word-at-a-time loop with its fast paths computes the segments of the scan one page at a time; none is an error |
| `CrashDump.LoadedAreMaximalRuns` | volatility3/volatility3/framework/layers/crash.py:130-203 | the segments are exactly the maximal runs of set bits, in order, each at header plus rank times page size; loading fails exactly if no bit is set |
| `CrashDump.DumpTarget` | volatility3/volatility3/framework/layers/crash.py:130-203 | through the segments an address stands for a file byte exactly if its page is dumped: the byte at header plus (set bits before the page) times page size |
| `CrashDump.LoadedLength` | volatility3/volatility3/framework/layers/crash.py:130-203 | the segments together have popcount times page size bytes |
| `CrashDump.ReadDump` | volatility3/volatility3/framework/layers/crash.py:130-203 | a complete dump opened and read: without dumped pages it does not open; a strict read succeeds exactly if all its pages are dumped, and otherwise names the first address that is not; every read gives the byte at header plus rank times page size for dumped pages and zero for the others |
| `Avml.ReadFrame` | volatility3/volatility3/framework/layers/avml.py:145-187 | the branches on the frame type: identifier, compressed, uncompressed, unskippable and skippable frames |
| `Avml.ReadSnappyFrames` | volatility3/volatility3/framework/layers/avml.py:136-197 | the loop computes the recorded frames, the exception, or that it never ends |
| `Avml.HangsIffTooShort` | volatility3/volatility3/framework/layers/avml.py:136-197 | the loop never ends exactly if all frames are good and give no more than the expected length; it returns exactly if they give more |
| `Avml.FramesTile` | volatility3/volatility3/framework/layers/avml.py:136-197 | the recorded frames tile the decompressed stream from 0 with no gap or overlap, past the expected length, each with the length it decompresses to |
| `Avml.LastFrameGives` | volatility3/volatility3/framework/layers/avml.py:136-197 | the last recorded frame is never empty |
| `SnappyFormat.WrittenIsRead` | volatility3/volatility3/framework/layers/avml.py:136-197 | chunks written by the framing format read back: the frames give the contents of the chunks up to the first that exceeds the expected length, and the bytes consumed end there |
| `SnappyFormat.WrittenHangs` | volatility3/volatility3/framework/layers/avml.py:136-197 | any written stream that gives no more than the expected length makes the reader hang |
| `SnappyFormat.UnreadableIsRaised` | volatility3/volatility3/framework/layers/avml.py:145-187 | chunks that give no more than the expected length, followed by one of the reserved types 0x02 to 0x7F, an identifier with other text or data that does not decompress: the reader raises that exception |
| `AvmlLayer.DecodeData` | volatility3/volatility3/framework/layers/avml.py:199-209 | the segment of the offset is looked up, the whole data decoded if compressed, and the requested part cut out |
| `AvmlLayer.AvmlLayer.Read` | volatility3/volatility3/framework/interfaces/layers.py:470-506 | a read through segments that decode to their lengths, also empty ones, succeeds exactly if padded or all found, and shows the decoded bytes; the length exception is never raised |
| `AvmlRange.RecordFrames` | volatility3/volatility3/framework/layers/avml.py:117-127 | the loop that records the frames of one range as segments and compression flags |
| `AvmlRange.RangeShowsStream` | volatility3/volatility3/framework/layers/avml.py:136-209 | any part of a range, read through a layer that includes its segments, is that part of the concatenated decompressed frames |
| `AvmlFile.LoadRange` | volatility3/volatility3/framework/layers/avml.py:103-116 | a range is loaded only behind a header with magic and version; its frames are those of the stream that follows, tile it past the expected length, and end with one that is not empty |
| `AvmlFile.LoadSegments` | volatility3/volatility3/framework/layers/avml.py:100-134 | the loop over the ranges gives the segments and flags of all of them, the exception, or no end |
| `AvmlFile.LoadedRanges` | volatility3/volatility3/framework/layers/avml.py:100-134 | the loaded ranges follow each other in the file, and the frames of each tile its stream past the expected length |
| `AvmlFile.RangeLoadsIff` | volatility3/volatility3/framework/layers/avml.py:103-116 | a range is loaded exactly if the frames of the data taken for it give more than it has, and loading never ends exactly if they are all good and do not |
| `AvmlFile.PlainRangeIsNotLoaded` | volatility3/volatility3/framework/layers/avml.py:103-116 | a range whose data has no compressed frame is never loaded: the reader takes no more bytes than the range has, and frame headers are among them |
| `AvmlFile.FileReads` | volatility3/volatility3/framework/layers/avml.py:100-209 | a whole file with whole frames and ascending ranges: a strict read of any part of the stream of any range succeeds and is that part |
| `AvmlFile.FileIsValid` | volatility3/volatility3/framework/layers/avml.py:100-134 | the segments of such a file are sorted and sound, and where a frame is empty the lookup finds the next one that is not |
| `AvmlWritten.WrittenFileLoads` | volatility3/volatility3/framework/layers/avml.py:100-134 | a file written with headers, streams and trailers, and up to five bytes behind them, is loaded, range by range, if the ranges compress and their last chunks are needed; each stream gives what was written |
| `AvmlWritten.TrailingBytesFail` | volatility3/volatility3/framework/layers/avml.py:100-114 | more than five bytes behind the ranges that are no header make the whole file unreadable |
| `AvmlWritten.FormatNames` | volatility3/volatility3/framework/layers/avml.py:83-91 | the magic number spells AVML, the stream identifier sNaPpY |
| `AvmlWritten.WrittenFileReads` | volatility3/volatility3/framework/layers/avml.py:100-209 | written, loaded and read: in such a file with ascending ranges, a strict read of any part of what was written for a range succeeds and is that part |
| `AvmlWritten.PlainRangeNeverLoads` | volatility3/volatility3/framework/layers/avml.py:103-116 | a range written without compressed chunks, whatever its length and the rest of the file, is never loaded; with an identifier and plain data, ten bytes or more, it keeps the loader busy for good |
| `AvmlWritten.PlainFileHangs` | volatility3/volatility3/framework/layers/avml.py:103-116 | the same for the file of one range that holds any memory of more than ten bytes in one uncompressed chunk |
| `Scanning.ScanBlock` | volatility3/volatility3/framework/interfaces/layers.py:578-603 | the loop over one mapped block yields one window each `chunk_size` bytes |
| `Scanning.ScanPieces` | volatility3/volatility3/framework/interfaces/layers.py:537-613 | the loop with `chunk_start` and `chunk_position` yields the windows of the mapped blocks in order, and an empty chunk at each hole before which no chunk is being filled; the branch for a half-filled chunk is never reached |
| `Scanning.EmptyChunkIff` | volatility3/volatility3/framework/interfaces/layers.py:560-577 | an empty chunk comes exactly at the holes with no byte mapped since the hole before, and ends where the mapping has come to |
| `Scanning.OneEmptyChunk` | volatility3/volatility3/framework/interfaces/layers.py:560-577 | over pieces with bytes that is one empty chunk before all others, exactly if the mapping does not start at 0 |
| `Scanning.ChunksAreCut` | volatility3/volatility3/framework/interfaces/layers.py:537-613 | each is one stretch of one block, no longer than `chunk_size + overlap`, and its reported end minus its length is its true start |
| `Scanning.WindowStarts` | volatility3/volatility3/framework/interfaces/layers.py:578-603 | a mapped piece gives one chunk each `chunk_size` bytes, from its first byte to its last, each reaching over the overlap or to the end of the piece |
| `Scanning.ChunksAscend` | volatility3/volatility3/framework/interfaces/layers.py:537-613 | the chunks come in the order of their addresses |
| `Scanning.ChunkBytesArePlaced` | volatility3/volatility3/framework/interfaces/layers.py:537-613 | with linear names each byte of a chunk's block lies where its address is mapped: address and place advance together |
| `Scanning.ChunkNamesItself` | volatility3/volatility3/framework/interfaces/layers.py:537-613 | otherwise the block names the scanned layer itself and the addresses of the chunk |
| `Scanning.RunFoundIffInOnePiece` | volatility3/volatility3/framework/interfaces/layers.py:537-613 | a run of at most `overlap + 1` bytes lies whole in a chunk, starting in its first `chunk_size` bytes, exactly if it lies in one mapped block |
| `Scanning.ScanData` | volatility3/volatility3/framework/interfaces/layers.py:322-348 | the loop over one section of a data layer computes its chunks |
| `Scanning.EndsIff` | volatility3/volatility3/framework/interfaces/layers.py:322-348 | that loop ends exactly if the overlap is at most `chunk_size` or the section fits in one chunk |
| `Scanning.LongOverlapHangs` | volatility3/volatility3/framework/interfaces/layers.py:322-348 | every scanner with an overlap longer than its chunks never ends on some section |
| `Scanning.DataRunFound` | volatility3/volatility3/framework/interfaces/layers.py:322-348 | every run of at most `overlap + 1` bytes of a section lies whole in a chunk and starts in its first `chunk_size` bytes |
| `Scanning.DataChunksInside` | volatility3/volatility3/framework/interfaces/layers.py:322-348 | every chunk lies in the section, is no longer than `chunk_size + overlap`, and its reported end gives its start |
| `Scanning.DataChunksOverlap` | volatility3/volatility3/framework/interfaces/layers.py:322-348 | the chunks lead from the start of the section to its end, each next one `overlap` bytes before the end of the one before it |
| `SelfReference.CollectReferences` | volatility3/volatility3/framework/automagic/windows.py:61-79 | the loop over the entries: the set of valid entries that point to the page, a bad entry, or a short page |
| `SelfReference.Test` | volatility3/volatility3/framework/automagic/windows.py:61-88 | the test accepts exactly the full pages with no bad entry and one self-reference at an allowed index; unpacking fails exactly on a short page with no bad entry |
| `SelfReference.AcceptsIff` | volatility3/volatility3/framework/automagic/windows.py:61-110 | what the 64-bit tests accept, in terms of entries: a full page in which no present entry maps a page and exactly one, at an index of the test, holds the frame of the page in bits 12 to 53 |
| `SelfReference.SelfMappedTable` | volatility3/volatility3/framework/layers/intel.py:269-306 | a page with exactly one self-reference is not one entry repeated, so the duplicate test cannot reject an accepted table base |
| `SelfReference.AcceptedIsSelfMapped` | volatility3/volatility3/framework/automagic/windows.py:102-110 | an accepted page below 2^45 is self-mapped: in the 64-bit layer on it, the address with the accepted index at all four levels and page offset `o` translates to the page plus `o` |
| `SelfReference.SelfRefTests` | volatility3/volatility3/framework/automagic/windows.py:102-121 | both 64-bit tests are of the kind this holds for; the old one accepts only index 0x1ED, the new one only 0x100 to 0x1FE |
| `SelfReference.OldSelfMapIsFixed` | volatility3/volatility3/framework/automagic/windows.py:113-121 | so what the old test accepts shows its own table at the fixed address 0xFFFFF6FB7DBED000 |
| `Layers.LayerContainer.AddLayer` | volatility3/volatility3/framework/interfaces/layers.py:645-668 | a layer is added exactly if its name is free and all its dependencies are there; every layer then stands on earlier ones |
| `Layers.MissingConcat` | volatility3/volatility3/framework/interfaces/layers.py:658-662 | the missing dependencies are found one by one, in order and as often as they are asked for |
| `Layers.LayerContainer.DelLayer` | volatility3/volatility3/framework/interfaces/layers.py:670-686 | a layer is deleted exactly if it is there and no layer depends on it; the rest stays well stacked |
| `Layers.WaysDownEnd` | volatility3/volatility3/framework/interfaces/layers.py:645-686 | in every reachable state a way down through the dependencies passes no layer twice and is no longer than the number of layers: there is no cycle and recursive reads end |
| `Layers.LayerContainer.FreeLayerName` | volatility3/volatility3/framework/interfaces/layers.py:688-703 | the loop ends with the first name, plain or numbered, that is not in use |
| `Layers.DigitsAreDecimal` | volatility3/volatility3/framework/interfaces/layers.py:701-703 | the number in a name is the decimal numeral of the count, without leading zeros |
| `Msf.MapStream` | volatility3/volatility3/framework/layers/msf.py:222-245 | the loop computes the pieces of the stream, page by page |
| `Msf.MapMeaning` | volatility3/volatility3/framework/layers/msf.py:222-245 | the pieces ascend, stay in the request and send each byte to its page; a strict mapping fails exactly past the last page |
| `Msf.FaultIsFirstMissing` | volatility3/volatility3/framework/layers/msf.py:231-235 | a strict mapping past the last page raises the exception for the first byte there, with all before it mapped |
| `Msf.PiecesArePages` | volatility3/volatility3/framework/layers/msf.py:227-245 | the pieces are cut at page boundaries and nowhere else |
| `Msf.ReadStream` | volatility3/volatility3/framework/layers/linear.py:40-67 | a read is the slice of the concatenated pages, zero past their end; strict, it fails exactly past their end, with the first byte there |
| `Configuration.GetIffEntry` | volatility3/volatility3/framework/interfaces/configuration.py:142-169 | a path looks up a value exactly if iteration yields the path with it |
| `Configuration.SetFlat` | volatility3/volatility3/framework/interfaces/configuration.py:167-187 | storing at a path is storing in the flat dictionary |
| `Configuration.DeleteFlat` | volatility3/volatility3/framework/interfaces/configuration.py:216-225 | deleting succeeds exactly if the path is stored and removes it, and no other, from the flat dictionary |
| `Configuration.ContainsIffGet` | volatility3/volatility3/framework/interfaces/configuration.py:227-236 | `in` holds exactly if the lookup succeeds |
| `Configuration.SpliceGet` | volatility3/volatility3/framework/interfaces/configuration.py:268-277 | a splice replaces exactly the keys under the path |
| `Configuration.BranchFlat` | volatility3/volatility3/framework/interfaces/configuration.py:242-266 | `branch` never changes the flat dictionary, also when it creates a missing level |
| `Configuration.BranchGet` | volatility3/volatility3/framework/interfaces/configuration.py:242-266 | the branch shows exactly the keys under the path |
| `Configuration.MergeStep` | volatility3/volatility3/framework/interfaces/configuration.py:291-298 | one merged item changes its own key only, with the precedence of `overwrite` and of missing or null values |
| `HierarchicalDicts.HierarchicalDict.FromMap` | volatility3/volatility3/framework/interfaces/configuration.py:83-106 | a dictionary built from a flat one has it as its contents, so rebuilding from the flattened dictionary gives an equal one |
| `HierarchicalDicts.HierarchicalDict.GetItem` | volatility3/volatility3/framework/interfaces/configuration.py:155-165 | the descent through the dictionary objects is the lookup in the tree |
| `HierarchicalDicts.HierarchicalDict.HasKey` | volatility3/volatility3/framework/interfaces/configuration.py:227-236 | so is the membership test |
| `HierarchicalDicts.HierarchicalDict.Generate` | volatility3/volatility3/framework/interfaces/configuration.py:142-153 | iteration yields every stored path exactly once |
| `HierarchicalDicts.HierarchicalDict.SetTo` | volatility3/volatility3/framework/interfaces/configuration.py:171-187 | storing data or a whole dictionary in place, creating levels on the way; no object comes to be shared by two levels |
| `HierarchicalDicts.HierarchicalDict.SetItem` | volatility3/volatility3/framework/interfaces/configuration.py:167-169 | the contents are the old contents with the key set |
| `HierarchicalDicts.HierarchicalDict.DeleteItem` | volatility3/volatility3/framework/interfaces/configuration.py:216-225 | deletion in place; a missing key leaves the dictionary as it was |
| `HierarchicalDicts.HierarchicalDict.BranchAt` | volatility3/volatility3/framework/interfaces/configuration.py:242-266 | what is returned is the stored object itself, or, for a missing path, an empty one that is no part of the dictionary |
| `HierarchicalDicts.HierarchicalDict.SpliceAt` | volatility3/volatility3/framework/interfaces/configuration.py:268-277 | exactly the keys under the path are replaced, by those of the spliced object, which becomes a part |
| `HierarchicalDicts.HierarchicalDict.Merge` | volatility3/volatility3/framework/interfaces/configuration.py:279-298 | after the loop every key has its merged value, by the stated precedence, and no other key has changed |
| `Versions.MatchesIffCompatible` | volatility3/volatility3/framework/versionutils.py:10-24 | a version matches exactly if patch and minor releases lead to it from a version with the required numbers; numbers not given are free, later ones are not looked at |
| `Versions.JoinedPathSplits` | volatility3/volatility3/framework/interfaces/configuration.py:53-57 | a joined path is read back by the configuration as its first part and the rest; empty parts are dropped |
| `Versions.FindUnsatisfied` | volatility3/volatility3/framework/configuration/requirements.py:545-591 | the recursive search with its loop and its copied accumulators; it ends on every finite graph, also with cycles |
| `Versions.NothingUnsatisfiedIffAllMet` | volatility3/volatility3/framework/configuration/requirements.py:545-591 | the search from a root is empty exactly if every non-optional version requirement that can be reached asks for a version from which compatible releases lead to the one there is; otherwise the root is reported |
| `Versions.SimpleChain` | volatility3/volatility3/framework/configuration/requirements.py:557-577 | if a requirement can be reached at all, it can be reached without passing a component twice |
| `Versions.ChainIsSearched` | volatility3/volatility3/framework/configuration/requirements.py:557-577 | along a way that passes no component twice, avoids the accumulator and is met up to an unmet requirement at its end, every requirement is reported under its configuration path |
| `Versions.ReportedIsUnmet` | volatility3/volatility3/framework/configuration/requirements.py:566-586 | everything reported lies on such a way, under its path |
| `Versions.MarkedIsMet` | volatility3/volatility3/framework/configuration/requirements.py:587-591 | every configuration entry that is set belongs to a requirement the search comes to, that is met and behind which nothing fails |
| `Versions.MetIsMarked` | volatility3/volatility3/framework/configuration/requirements.py:587-591 | every such requirement has its entry set |
| `ThreadPool.StepKeepsInv` | vol3-service/internal/worker/worker.go:18-50 | every step of every goroutine keeps the protocol, the conservation of tasks and the answers in the cache |
| `ThreadPool.TasksAreConserved` | vol3-service/internal/worker/worker.go:23-50 | in every reachable state each submitted task is queued, in the hands of one worker or finished, exactly once; tasks start in the order of submission |
| `ThreadPool.ShutdownWaitsForAll` | vol3-service/internal/worker/worker.go:36-50 | `Shutdown` returns only after every task has finished, in every run, exactly if the pool has a worker, or nothing to run, or can never take all its tasks |
| `ThreadPool.ProgressIffWorkersOrRoom` | vol3-service/internal/worker/worker.go:43-50 | some step is possible in every reachable state before the end exactly if there is a worker or the queue holds all tasks |
| `ThreadPool.RunsAreBounded` | vol3-service/internal/worker/worker.go:23-50 | every run makes a bounded number of steps, so a pool with a worker always finishes |
| `ThreadPool.DoneMeansAnswered` | vol3-service/cmd/main.go:50-53 | if the cache writes succeed and keys stay, then, whatever else is in the cache, the key of the pipeline is set only after every plugin has a result or an error key |
| `ThreadPool.AnsweredIffAllWritten` | vol3-service/cmd/main.go:50-53 | over a cache that starts empty and is used by nobody else: when the key of the pipeline is set, every plugin has its answer exactly if no write failed and there was a worker, or nothing to run |
| `ThreadPool.LostWriteIsNotNoticed` | vol3-service/internal/worker/worker.go:67-105 | in every pool with a worker and a task, one failed write, and the key of the pipeline is set after all tasks finished without an answer to one |
| `ThreadPool.KeysTellOutcomes` | vol3-service/internal/worker/worker.go:71-105 | over a fresh cache used by nobody else: a result key is there exactly if some step ran the plugin of the task well and stored it, an error key exactly if it failed and that was stored |
| `ThreadPool.FinishedIffRunOrHit` | vol3-service/internal/worker/worker.go:73-79 | a task finishes exactly by running its plugin, or by a hit on its result key; an error key is no hit |
| `ThreadPool.CachedCaseRunsNothing` | vol3-service/internal/worker/worker.go:73-79 | with all result keys in the cache a pool with a worker can finish every task without running a plugin |
| `Mermaid.Render` | volatility3/volatility3/cli/text_renderer.py:714-742 | for any depths, each row is drawn below the nearest earlier row with a smaller depth, or as a root if there is none |
| `Mermaid.NextStack` | volatility3/volatility3/cli/text_renderer.py:720-732 | pushes and pops keep, for each depth down from the current row, the last row that is not deeper |
| `Mermaid.RenderRecoversTree` | volatility3/volatility3/cli/text_renderer.py:714-742 | for the rows of a tree, what is drawn is the tree: the parents drawn are the parents of the nodes |
| `Symbols.SymbolTable.GetSymbolsByLocation` | volatility3/volatility3/framework/interfaces/symbols.py:233-249 | exactly the symbols from `offset` to `offset + size`, each once, by address and name, whether the sorted list was there already or not; a negative size is an error |
| `Symbols.BisectLeft` | volatility3/volatility3/framework/interfaces/symbols.py:243 | the list is split at the address: all symbols before the place lie below it, none from it on |
| `Symbols.StringLessIffLexicographic` | volatility3/volatility3/framework/interfaces/symbols.py:239-248 | names at one address are ordered by their first difference, a prefix first |
| `Symbols.LocatedIsUnique` | volatility3/volatility3/framework/interfaces/symbols.py:233-249 | a query has only one answer, so first and later calls agree |

## Left out

- Windows swap translation and the dirty bit of pages; `canonicalize` and `decanonicalize`.
- Writes through an Intel layer into its own page tables: the walk cache is stated over a base
  layer that does not change.
- PSE-36 frames of 32-bit large pages, which the source does not follow either.
- SelfReference.AcceptedIsSelfMapped: not stated for the 32-bit test, whose entries may map large
  pages, for the PAE test, which is another algorithm, or for pages at 2^45 and above, which the
  layer cannot address.
- The cache on reads of a layer: a write does not empty it in the source, so reads after writes
  are stated for the uncached bodies.
- Segmented.Map: which pieces without bytes come between the others, at empty segments and at one that
  starts where the request ends, is not stated; segments are taken as sorted and disjoint, and empty
  ones below the end of the base layer; the LiME, QEMU, VMware, Xen and ELF loaders do not all
  establish that.
- CrashDump.LoadSegments: only bitmap dumps; run-list dumps and the file header are not modelled.
- AvmlFile.FileReads: for ranges that ascend in memory, and frames whose payload lies whole in the
  data of their range and gives nothing when it is empty; a frame shorter than its checksum or cut
  off by the end of the data is not covered.
- AvmlWritten.WrittenFileLoads: for ranges whose whole encoded stream is taken and needed to its
  last chunk; which ranges load in general is `AvmlFile.RangeLoadsIff`.
- CrashDump.ReadDump: for files that hold the header and every dumped page; a shorter file is not
  covered.
- SnappyFormat.WrittenIsRead: for chunks with a body of at least one byte; checksums are not
  computed, as the source does not check them.
- Avml.ReadSnappyFrames: a loop that does not end is the outcome `Hangs`.
- AvmlLayer.AvmlLayer.Read: the mapping is computed before the pieces are read, so which of two
  exceptions comes first is not modelled.
- Scanning.ScanPieces: the merging of sections before a scan is not modelled, one section is
  scanned at a time.
- HierarchicalDicts.HierarchicalDict.SpliceAt: for dictionaries with the same separator that share
  no object; a dictionary spliced into itself, or twice, is not modelled.
- HierarchicalDicts.HierarchicalDict.Merge: the same.
- Values of configuration entries are opaque texts or null; the type check on them, `len`, which
  adds up lengths of names, JSON and cloning are not modelled.
- Versions.FindUnsatisfied: components, their versions and their requirements are given as a fixed
  finite graph.
- IntelManual.Matches: the manual's protection checks, paging-structure caches and the
  execute-disable bit as a reserved bit are not modelled.
- ThreadPool.DoneMeansAnswered: keys do not expire, tasks return, and goroutines do not crash.
- Layers.WaysDownEnd: the dependencies of a layer do not change while it is in the container.
- Msf.ReadStream: the pages lie in a buffer, and the page size is positive.
- Symbols.SymbolTable.GetSymbolsByLocation: the table does not change after the list is built.
- Kafka, Redis, HTTP and subprocess plumbing, the command line, the other renderers, the registry
  layer, templates, logging, progress callbacks and multiprocessing.

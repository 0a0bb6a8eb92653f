# rimage image packer (file_simple.c)

This project models, in Dafny, the image-packing engine of the `rimage` tool of
Sound Open Firmware, and proves properties of the model. The tool turns the ELF
modules of a DSP firmware into one firmware image and, next to it, a log
dictionary.

- **Zone classifier** (`get_mem_zone_type`) — places a section in the first
  memory zone of the target machine's table that holds it entirely. The zone
  tables of the byt, cht, bsw, hsw, bdw and hky machines are constants.
- **Block packer** (`write_block`) — writes a block header (zone type, size
  padded to a multiple of 4, host-side offset) and then the section's bytes
  with zero padding. It returns the padding.
- **Module packer** (`simple_write_module`) — writes a provisional module
  header and one block per eligible section. It then seeks back and rewrites
  the header with the padding added to its size.
- **Relocatable module packer** (`simple_write_module_reloc`,
  `write_block_reloc`) — a module header announcing one block, then the whole
  ELF file as one DRAM block at offset 0.
- **Firmware writer** (`simple_write_firmware`) — grows each module's
  `fw_size` by its header overhead and sums the sizes into a provisional file
  size. It writes the firmware header, packs every module, and rewrites the
  header with the paddings added.
- **Log dictionary** (`write_logs_dictionary`) — for each module, takes the
  firmware version from a `.fw_ready` section when the module has one. For a
  module with log entries it writes a logs header carrying the version that is
  current, then the section's bytes.

Files:

- `bytes.dfy` — `uint32_t` arithmetic made explicit as `Wrap32`, and
  little-endian encoding.
- `stream.dfy` — results, and the output file as a byte stream. A write fails
  past a capacity, and a failed write changes nothing.
- `file_format.dfy` — the on-disk headers and their decoders.
- `elf_input.dfy` — what the ELF reader hands over (the sections, the file's
  bytes and its figures).
- `zones.dfy`, `block.dfy`, `module_packer.dfy`, `firmware.dfy`, `logs.dfy` —
  pure step functions that follow each C function branch by branch, layout
  functions that say what bytes the output should hold, and lemmas that
  connect the two.
- `image.dfy` — `struct image` as the class `Packer.Image`. Its methods are
  the six C functions and the pieces they are split into for the proofs: the
  section loop of `simple_write_module` (`WriteSections`), and the module
  call, the two loops, the header rewrite and the image writing of
  `simple_write_firmware` (`PackModule`, `EstimateModuleSizes`,
  `WriteModules`, `RewriteHeader`, `WriteImage`). The writers update an
  output stream in place; `EstimateModuleSizes` updates the modules' `fw_size`
  fields. Each method is proved against its step function or layout.

Three places in the code do not do what it evidently means to do. The model
keeps each of them as written, beside a corrected version that the rest of
the model uses (see Findings):

- The payload buffer of `write_block` is sized to the section, not to the
  padded block (Findings, row 1). As written: `BlockPacker.AsWrittenBuffer`.
- `get_mem_zone_type` compares end addresses in `uint32_t`, so they can wrap
  (Findings, row 2). As written: `Zones.ClassifyAsWritten`.
- The provisional firmware size counts `num_modules` module headers per
  module instead of one (Findings, row 3). As written:
  `FirmwarePacker.EstimateAllAsWritten`.

In relocatable mode the firmware header's file size does not match the bytes
behind it either: `FirmwarePacker.RelocHeaderDisagrees` exhibits a module
where the two differ (see Left out).

The module header's block count is the number of sections less the bss
sections. That equals the number of blocks written only when every non-bss
section passes the flag test. The model keeps this count:
`ModulePacker.NumBlocksCanDisagree` shows a module where the two differ, and
`ModulePacker.ModuleSizeAccountsForBlocks` proves the header exact when they
agree.

## Model

| member | source | states |
|---|---|---|
| ElfInput.ReadAt | rimage/file_simple.c:117-128 | seek and read of n bytes succeeds exactly when n is 0 (a seek past the end succeeds, and nothing is read) or the file holds the n bytes from the offset, and then yields those bytes |
| ElfInput.Eligible | rimage/file_simple.c:191-200 | the filter of the section loop: writable, allocated or executable, and not bss; ModulePacker.BlocksLength and SectionsSpecAppends state what the loop writes for the sections it passes |
| Stream.OutStream.Write | rimage/file_simple.c:107-110 | fwrite at the cursor: it succeeds exactly when the bytes fit; the bytes then replace or extend the contents at the cursor and the cursor moves past them; a failed write changes nothing |
| Stream.OutStream.Tell | rimage/file_simple.c:169 | ftell returns the cursor |
| Stream.OutStream.Seek | rimage/file_simple.c:215 | fseek to an earlier position moves the cursor and keeps the contents |
| Stream.OverwriteKeepsTheRest | rimage/file_simple.c:214-216 | writing at a position keeps everything before it and everything after the written range, and puts the bytes in that range |
| Stream.PutRewrites | rimage/file_simple.c:212-222 | seeking back over a header and writing one of the same length replaces exactly that header |
| Stream.JoinKeepsError | rimage/file_simple.c:357-361 | once a module cannot be packed, the image of all modules fails with that module's error |
| FileFormat.BlockHeaderRoundTrip | rimage/file_simple.c:108 | the block header written with fwrite decodes back to its type, size and offset |
| FileFormat.ModuleHeaderRoundTrip | rimage/file_simple.c:170 | the module header decodes back to its type, size and block count |
| FileFormat.FirmwareHeaderRoundTrip | rimage/file_simple.c:344 | the firmware header carries the "Reef" signature and decodes back to file size, module count and ABI |
| FileFormat.LogsHeaderRoundTrip | rimage/file_simple.c:429-430 | the logs header carries the "Logs" signature and decodes back to address, length, data offset and version |
| Zones.Classify | rimage/file_simple.c:53-75 | the zone type is invalid exactly when no zone contains the section; otherwise it is the first zone, in table order, that contains it |
| Zones.FirstZoneFrom | rimage/file_simple.c:62-74 | the loop from zone i on finds the first containing zone, or invalid when no zone from i on contains the section |
| Zones.GetMemZoneType | rimage/file_simple.c:53-75 | the classification loop returns the first zone that contains the section, or invalid |
| Zones.ClassifyAsWritten | rimage/file_simple.c:53-75 | get_mem_zone_type as written, with its uint32_t end sums: invalid exactly when no zone passes the three tests, otherwise the first zone in table order that passes them |
| Zones.FitsAsWritten | rimage/file_simple.c:59-71 | the three tests of one zone with `end` and `base + size` as uint32_t sums; Zones.FitsAsWrittenWithoutWrap proves them equal to containment when nothing wraps, and Zones.WrappedEndIsAccepted shows where they differ |
| Zones.FirstZoneAsWrittenFrom | rimage/file_simple.c:62-74 | the as-written loop from zone i on: the first zone that passes the uint32_t tests, or invalid when none from i on does |
| Zones.ClassifyAsWrittenAgrees | rimage/file_simple.c:59-71 | while neither end address overflows 32 bits, the source's uint32_t comparisons classify exactly as containment does |
| Zones.FitsAsWrittenWithoutWrap | rimage/file_simple.c:66-71 | for one zone, the three uint32_t tests amount to containment when nothing wraps |
| Zones.FirstZoneAsWrittenWithoutWrap | rimage/file_simple.c:62-74 | the as-written loop and the containment loop agree from every zone on when nothing wraps |
| Zones.UnsetZoneNeverMatches | rimage/file_simple.c:66-71 | a zone left out of a machine's table (size 0) never holds a section |
| Zones.WrappedEndIsAccepted | rimage/file_simple.c:59-71 | a byt section of almost 4 GiB starting inside IRAM has a wrapped end, so the source puts it in IRAM, although no zone contains it |
| Zones.FirstMatchIsOnlyMatch | rimage/file_simple.c:62-73 | in a table of disjoint zones the zone found is the only zone that contains the section |
| Zones.ZoneTable | rimage/file_simple.c:469-485 | a machine's table has 15 entries, with IRAM and DRAM at their block types and every other entry unset |
| Zones.ZoneTableSound | rimage/file_simple.c:469-575 | a table built from disjoint IRAM and DRAM zones below the 32-bit limit is disjoint and below that limit |
| Zones.ShippedMachinesSound | rimage/file_simple.c:469-575 | the six shipped machine tables are well formed (no zone end overflows) and disjoint |
| BlockPacker.Padding | rimage/file_simple.c:89-94 | the padding is under 4 and makes the size a multiple of 4; an aligned size gets none |
| BlockPacker.PaddedSizeIsLeastMultiple | rimage/file_simple.c:89-94 | block.size is the least multiple of 4 not below the section size |
| BlockPacker.ContainedSectionFits | rimage/file_simple.c:89-100 | a section a zone contains is small enough for block.size not to wrap |
| BlockPacker.PaddedBuffer | rimage/file_simple.c:112-131 | the buffer written holds the section's bytes followed by zeros, padded size long |
| BlockPacker.AsWrittenBuffer | rimage/file_simple.c:113-124 | the buffer as allocated and read: section->size bytes, the first part of the corrected padded buffer |
| BlockPacker.BlockHeaderFor | rimage/file_simple.c:89-100 | the block header carries the zone type and a size that is a multiple of 4; below the largest zone end that size covers the section with less than 4 bytes to spare |
| BlockPacker.AsWrittenWriteOverrunsBuffer | rimage/file_simple.c:113-131 | for an unaligned section the write of line 131 asks for Padding(size) bytes more than the buffer allocated at line 113 holds |
| BlockPacker.BlockBytes | rimage/file_simple.c:79-151 | a block can be produced exactly when a zone contains the section and its bytes can be read (always, for an empty section); an unclassified section gives the invalid-address error |
| BlockPacker.InvalidSectionWritesNothing | rimage/file_simple.c:96-105 | a section outside every zone is rejected with its address and size, and nothing is written |
| BlockPacker.BlockLayout | rimage/file_simple.c:89-131 | a packed block decodes to the zone type, the padded size and the host-side offset, followed by the section's bytes from the file (none for an empty section) and zeros |
| BlockPacker.BlockSpecAppends | rimage/file_simple.c:79-151 | write_block appends exactly the block's bytes and returns the padding; it succeeds exactly when the block can be produced and fits |
| BlockPacker.BlockSpec | rimage/file_simple.c:79-151 | write_block step by step: on success it returns the padding; a section no zone holds is rejected with its address and size and the stream unchanged; the file never shrinks |
| BlockPacker.BytScenario | rimage/file_simple.c:96-100 | a 100-byte section at 0xff2c0010 goes to byt IRAM at host offset 0xC0010 with no padding |
| BlockPacker.BytOverflowScenario | rimage/file_simple.c:96-105 | a section running 16 bytes past byt IRAM is rejected without writing; a shorter one is accepted |
| ModulePacker.BlocksLength | rimage/file_simple.c:191-210 | the blocks take one header per eligible section plus the eligible sections' sizes and padding |
| ModulePacker.InitialModuleHeader | rimage/file_simple.c:163-166 | the provisional module header has type SOF_FW_BASE, num_sections - num_bss blocks, and text plus data size plus one block header per block (when these fit in 32 bits) |
| ModulePacker.FinalModuleHeader | rimage/file_simple.c:211 | the rewritten header differs from the provisional one only in its size, which grows by the padding |
| ModulePacker.SectionsSpec | rimage/file_simple.c:191-210 | the section loop step by step, stopping at the first block that fails; the file never shrinks |
| ModulePacker.ModuleSpec | rimage/file_simple.c:153-227 | simple_write_module step by step, header rewrite included; the file never shrinks |
| ModulePacker.SectionsSpecAppends | rimage/file_simple.c:191-210 | the section loop appends the blocks of the eligible sections in order and returns the padding summed over them |
| ModulePacker.ModuleSpecAppends | rimage/file_simple.c:153-227 | simple_write_module appends the final module header and the blocks, with the cursor after the last block, and returns the module's padding; it succeeds exactly when every eligible section can be packed and all of it fits |
| ModulePacker.ModuleSizeAccountsForBlocks | rimage/file_simple.c:163-211 | when the reader's figures agree with the sections, the final header's block count is the number of blocks and its size is the size of the blocks behind it |
| ModulePacker.NumBlocksCanDisagree | rimage/file_simple.c:163-196 | a non-bss section that fails the flag test is counted in num_blocks, but no block is written for it |
| ModulePacker.RelocLayout | rimage/file_simple.c:229-319 | a relocatable module is a header announcing one block, a DRAM block header at offset 0 with the file's size, then the whole file |
| ModulePacker.RelocModuleHeader | rimage/file_simple.c:286-288 | the module header of a relocatable module: one block, text plus data as its size; ModulePacker.RelocLayout proves the packed module starts with it |
| ModulePacker.RelocBlockHeader | rimage/file_simple.c:236-238 | the single DRAM block at offset 0 with file_size as its size; ModulePacker.RelocLayout proves it follows the module header |
| ModulePacker.BlockRelocSpecAppends | rimage/file_simple.c:229-278 | write_block_reloc appends the block and returns 0; it fails exactly when the file is shorter than file_size or the output is full |
| ModulePacker.BlockRelocSpec | rimage/file_simple.c:229-278 | write_block_reloc step by step: it returns 0 on success and fails only with a failed read or write |
| ModulePacker.ModuleRelocSpec | rimage/file_simple.c:280-319 | simple_write_module_reloc step by step: it returns 0 on success and fails only with a failed read or write |
| ModulePacker.ModuleRelocSpecAppends | rimage/file_simple.c:280-319 | simple_write_module_reloc appends the relocatable module and returns 0, with the same failure conditions |
| FirmwarePacker.EstimateAll | rimage/file_simple.c:335-342 | every module's fw_size grows by one block header per non-bss section and one module header |
| FirmwarePacker.Estimated | rimage/file_simple.c:337-341 | the corrected estimate of one module: fw_size grows by one block header per non-bss section and one module header; FirmwarePacker.EstimateMatchesModule proves that fw_size plus padding is then the module's length in the image |
| FirmwarePacker.EstimatedAsWritten | rimage/file_simple.c:337-341 | one module's estimate as written: fw_size grows by 12 * (num_modules - 1) bytes more than the corrected estimate, and nothing else changes |
| FirmwarePacker.EstimateAllAsWritten | rimage/file_simple.c:335-342 | the first loop as written: every module gets the as-written estimate |
| FirmwarePacker.AsWrittenEstimateOvercounts | rimage/file_simple.c:335-342 | the provisional size as written exceeds the intended one by 12 * (num_modules - 1) bytes per module |
| FirmwarePacker.TwoModulesOvercountBy24 | rimage/file_simple.c:337-341 | with two modules the provisional size as written is 24 bytes too large |
| FirmwarePacker.EstimateIsNotIdempotent | rimage/file_simple.c:335-342 | fw_size is updated in place, so a second run over the same modules counts their headers twice |
| FirmwarePacker.PaddingStep | rimage/file_simple.c:362-364 | adding each module's padding to the uint32_t file size keeps it equal to the running total modulo 2^32 |
| FirmwarePacker.ModuleStep | rimage/file_simple.c:353-356 | the per-module call picks the relocatable or the split writer; the file never shrinks |
| FirmwarePacker.ModulesSpec | rimage/file_simple.c:348-364 | the second loop step by step from module i: the first failing module ends it with its error, before any later module is written; the file never shrinks |
| FirmwarePacker.ModuleStepAppends | rimage/file_simple.c:353-363 | writing one module appends its bytes in the configured layout and returns its padding |
| FirmwarePacker.ModulesTurn | rimage/file_simple.c:353-363 | one turn of the second loop: a failing module ends the loop with its error and its stream; otherwise the loop goes on from the end of the file with the padding added |
| FirmwarePacker.ModulesSpecAppends | rimage/file_simple.c:348-364 | from any module on, the second loop appends the bytes of the remaining modules, or fails with the first failing module's error |
| FirmwarePacker.ModulesSpecSize | rimage/file_simple.c:362-364 | when the loop gets to the end it returns the starting file size grown by every module's padding, modulo 2^32 |
| FirmwarePacker.ModulesSpecWrites | rimage/file_simple.c:348-364 | the second loop appends every module's bytes in order and, at the end, returns the file size grown by all paddings modulo 2^32 |
| FirmwarePacker.FinalHeaderFromSizes | rimage/file_simple.c:363-367 | the rewritten header's file size, after both loops, is the sum of fw_size and padding modulo 2^32 |
| FirmwarePacker.FinalHeader | rimage/file_simple.c:363-367 | the rewritten firmware header: file size from the fw_size and padding totals modulo 2^32, the module count and the ABI; FirmwarePacker.FinalHeaderFromSizes proves the two loops produce it |
| FirmwarePacker.EstimateMatchesModule | rimage/file_simple.c:335-342 | a module's corrected fw_size plus its padding is the number of bytes it occupies in the image |
| FirmwarePacker.EstimatesMatchImage | rimage/file_simple.c:335-364 | for every prefix of the modules, fw_size plus padding summed is the length of their packed bytes |
| FirmwarePacker.JoinedSizes | rimage/file_simple.c:335-364 | when each module's bytes are as long as its fw_size and padding, so are the first n modules together |
| FirmwarePacker.FinalSizeIs | rimage/file_simple.c:363-367 | the final header's file size is the fw_size and padding total modulo 2^32 |
| FirmwarePacker.FileSizeMatchesImage | rimage/file_simple.c:322-377 | split layout only (reloc false): when the modules' figures agree with their sections, the final header's file size is the length of the packed modules behind it, modulo 2^32 |
| FirmwarePacker.FirmwareFileHeader | rimage/file_simple.c:322-377 | split layout only (reloc false): when the modules' figures agree with their sections, the header at the front of the finished file decodes to the size of everything after it, the module count and the ABI version |
| FirmwarePacker.RelocModuleSizes | rimage/file_simple.c:229-342 | for one relocatable module the final header's size is its estimated fw_size, while its image is a module header, a block header and the whole file |
| FirmwarePacker.RelocHeaderDisagrees | rimage/file_simple.c:286-342 | a consistent 100-byte relocatable module with no sections gets a header file size of 12 while 124 bytes follow the header |
| LogsDictionary.VersionOf | rimage/file_simple.c:414-416 | the version copied out of a fw_ready message is its 34 bytes from offset 24, the size of the header's version field |
| LogsDictionary.LogsEntry | rimage/file_simple.c:388-460 | one iteration fails only with a failed read, and keeps the version the size of the header field |
| LogsDictionary.NextVersion | rimage/file_simple.c:397-420 | the version is lost (a failed read) exactly when the module has a .fw_ready section that cannot be read; otherwise it keeps the header field's size |
| LogsDictionary.LogsEntryOutcome | rimage/file_simple.c:394-454 | an iteration succeeds exactly when its reads succeed, and then carries the .fw_ready version when there is one, else the old one |
| LogsDictionary.LogsImage | rimage/file_simple.c:388-466 | the whole loop fails only with a failed read, and keeps the version the size of the header field |
| LogsDictionary.LogsEntryLayout | rimage/file_simple.c:394-454 | an iteration succeeds exactly when its reads succeed; it takes the version from .fw_ready when there is one, and for a module with log entries it adds a header decoding to the section's address and size, the header size and the version, followed by the section's bytes |
| LogsDictionary.RecordHeader | rimage/file_simple.c:386-430 | the logs header of a module: the log section's address and size, the header size as data offset, and the current version; LogsDictionary.LogsEntryLayout proves the entry decodes to it |
| LogsDictionary.LogsImageOkIffReadable | rimage/file_simple.c:388-466 | the dictionary can be produced exactly when every read of every module succeeds |
| LogsDictionary.VersionFromLatestFwReady | rimage/file_simple.c:394-420 | the version at the end is the one read from the last module with a .fw_ready section |
| LogsDictionary.VersionBeforeAnyFwReady | rimage/file_simple.c:381-420 | without any .fw_ready section the header keeps its initial version |
| LogsDictionary.LogsImageKeepsError | rimage/file_simple.c:406-445 | once a module's read fails, the whole dictionary fails |
| LogsDictionary.LogsImagePrefix | rimage/file_simple.c:388-461 | the dictionary of every prefix of the modules succeeds and is no longer than the whole |
| LogsDictionary.LongerThanRoom | rimage/file_simple.c:446-454 | once the dictionary of a prefix exceeds the room in the file, the whole dictionary fails or exceeds it too |
| LogsDictionary.RecordSpec | rimage/file_simple.c:422-454 | the log entries of one module step by step: the unchecked header write, then the read and the payload write; the stream stays valid with the same capacity |
| LogsDictionary.EntrySpec | rimage/file_simple.c:394-460 | one iteration step by step; on success it returns a version of the header field's size |
| LogsDictionary.DictionarySpec | rimage/file_simple.c:388-466 | the loop step by step from module i, the first failing module ending it; the stream stays valid with the same capacity |
| Packer.Image.WriteBlock | rimage/file_simple.c:79-151 | write_block's result and new stream are those of the step function BlockSpec |
| Packer.ModulesAfterHeader | rimage/file_simple.c:344-367 | after the provisional header, the module loop succeeds exactly when the modules pack and fit, leaves the header and the modules in the file, and returns the final header's file size |
| Packer.Image.WriteModule | rimage/file_simple.c:153-227 | simple_write_module's result and new stream, after the header rewrite, are those of ModuleSpec |
| Packer.Image.WriteSections | rimage/file_simple.c:191-210 | the section loop of simple_write_module: result and new stream are those of SectionsSpec |
| Packer.Image.WriteBlockReloc | rimage/file_simple.c:229-278 | write_block_reloc's result and new stream are those of BlockRelocSpec |
| Packer.Image.WriteModuleReloc | rimage/file_simple.c:280-319 | simple_write_module_reloc's result and new stream are those of ModuleRelocSpec |
| Packer.Image.PackModule | rimage/file_simple.c:353-361 | the per-module call of the second loop appends that module's bytes in the configured format and returns its padding |
| Packer.Image.EstimateModuleSizes | rimage/file_simple.c:335-342 | the first loop leaves every module estimated and returns their fw_size sum modulo 2^32 |
| Packer.Image.WriteModules | rimage/file_simple.c:348-364 | the second loop's result and new stream are those of ModulesSpec: it stops at the first module that fails, with that module's error and nothing of any later module written |
| Packer.Image.RewriteHeader | rimage/file_simple.c:365-369 | seeking to 0 and rewriting the header replaces only the header and leaves the cursor after it |
| Packer.Image.WriteImage | rimage/file_simple.c:344-369 | on an empty file it succeeds exactly when every module can be packed and the image fits; the file is then the final header and the modules |
| Packer.Image.WriteFirmware | rimage/file_simple.c:322-377 | simple_write_firmware on an empty file estimates the modules, and succeeds exactly when every module packs and the image fits, leaving the final header and the modules; in the split layout, on a well-formed machine and with figures that agree with the sections, the header's file size is the size of the rest of the file |
| Packer.Image.WriteLogsRecord | rimage/file_simple.c:422-454 | result and new stream are those of RecordSpec, on every path: the unchecked header write, then a failed read or payload write reported as such; header and payload are appended when the read succeeds and both fit |
| Packer.Image.WriteLogsEntry | rimage/file_simple.c:394-460 | result and new stream are those of EntrySpec; it returns the version LogsEntry gives and appends the entry's bytes when they fit; a read error means the entry is an error |
| Packer.Image.WriteLogsDictionary | rimage/file_simple.c:379-467 | result and new stream are those of DictionarySpec, the first failing module ending the loop; the file gains exactly the dictionary when it fits; success only when the dictionary can be produced |

## Left out

- Error codes: the source returns `-errno`. The model names the kind of failure (`InvalidBlockAddress`, `ReadFailed`, `WriteFailed`) instead of its code.
- A short read: `fread` at end of file does not set `errno`, so the source returns `-errno` with whatever `errno` held before, possibly 0. With 0, `write_block` returns the padding with only the block header written, `write_block_reloc` returns 0 with only its block header written, and `write_logs_dictionary` returns 0 through `goto out`, dropping every later module. The model treats every short read as a failed read (`ReadFailed`).
- Allocation failures (`-ENOMEM`) and `fseek` failures on the input are not modelled: memory and seeks on the ELF file always succeed.
- The error branches of the two header rewrites (`rimage/file_simple.c:217-221`, `:368-369`) are not modelled. They rewrite bytes that are already in the file, so in this model of the output they cannot come up short.
- Output failure is modelled as a capacity past which a write fails. A failed write changes nothing, whereas a real partial `fwrite` leaves some bytes behind.
- Printing to stdout and stderr, and the `block_idx` counter used only for printing, are left out.
- Reading the ELF files and computing each module's figures (section counts, text and data sizes, file size, the `.fw_ready` and log section indices) are not part of this model; those values are inputs.
- file_format.h is not part of this model. The record layouts (little-endian 32-bit fields in the order base, length, offset for the logs header; file size, module count, ABI for the firmware header) are assumed. So are the sizes of the version record (34 bytes at offset 24 of a 66-byte fw_ready message).
- `fw_size` and the module and section counts are unbounded integers; only the header fields are reduced to 32 bits.
- Packer.Image.WriteLogsDictionary: the version in the header before the first `.fw_ready` section is uninitialised stack memory in the source. It is the parameter `staleVersion`.
- Packer.Image.WriteFirmware: requires an empty image file. The source rewrites the header at offset 0, which is only right when the image starts there.
- Packer.Image.WriteFirmware: the header's file size is proved to match the file only in the split layout. In relocatable mode the source's estimate (fw_size plus one block header per non-bss section and the module headers) does not count what simple_write_module_reloc writes (a module header, one block header and the whole ELF file); `FirmwarePacker.RelocHeaderDisagrees` shows a module where they differ.
- FirmwarePacker.FileSizeMatchesImage: split layout only, for the reason above.
- FirmwarePacker.FirmwareFileHeader: split layout only, for the reason above.
- Packer.Image.WriteBlock: pads with zeros instead of reading past the buffer (Findings, row 1).
- Zones.GetMemZoneType: compares end addresses without 32-bit wrap-around (Findings, row 2).
- FirmwarePacker.EstimateAll: counts one module header per module (Findings, row 3).
- Packer.Image.EstimateModuleSizes: the first loop uses the corrected estimate, one module header per module (Findings, row 3).

## Findings

| source | as written | input that shows it | evidently intended | confidence | as-written member | corrected member |
|---|---|---|---|---|---|---|
| rimage/file_simple.c:113-131 | the buffer holds section->size bytes but block.size bytes are written from it | any section whose size is not a multiple of 4, e.g. size 5: 8 bytes written from a 5-byte buffer | zero-filled buffer of the padded size | not executed | BlockPacker.AsWrittenWriteOverrunsBuffer | BlockPacker.PaddedBuffer |
| rimage/file_simple.c:59-71 | `end` and `base + size` are uint32_t sums and wrap | byt, section at 0xff2c0010 of size 0xfffffff0: its end wraps to 0xff2c0000 and it is classified as IRAM | a section is accepted only if a zone contains it | not executed | Zones.WrappedEndIsAccepted | Zones.Classify |
| rimage/file_simple.c:339-340 | every module's fw_size gets sizeof(mod_hdr) * num_modules | two modules: the provisional file size is 24 bytes larger than the modules | one module header per module | not executed | FirmwarePacker.TwoModulesOvercountBy24 | FirmwarePacker.FileSizeMatchesImage |

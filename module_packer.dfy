/** The module packers: simple_write_module, which writes one block per
    eligible section under a module header it rewrites once the padding is
    known, and simple_write_module_reloc / write_block_reloc, which store the
    whole ELF file as one block. */
module ModulePacker {
  import opened Bytes
  import opened Results
  import opened Stream
  import opened FileFormat
  import opened ElfInput
  import opened Zones
  import opened BlockPacker

  // ---------------------------------------------------------------------
  // Figures over the eligible sections

  function EligibleCount(ss: seq<Section>): nat {
    if |ss| == 0 then 0 else (if Eligible(ss[0]) then 1 else 0) + EligibleCount(ss[1..])
  }

  function EligibleSize(ss: seq<Section>): nat {
    if |ss| == 0 then 0 else (if Eligible(ss[0]) then ss[0].size else 0) + EligibleSize(ss[1..])
  }

  function TotalPadding(ss: seq<Section>): nat {
    if |ss| == 0 then 0 else (if Eligible(ss[0]) then Padding(ss[0].size) else 0) + TotalPadding(ss[1..])
  }

  /** The blocks of the eligible sections, in section order, or the error of
      the first eligible section that cannot be packed. */
  function Blocks(m: Machine, mod: Module, ss: seq<Section>): Result<seq<byte>>
    requires WellShaped(m)
  {
    if |ss| == 0 then Ok([])
    else if !Eligible(ss[0]) then Blocks(m, mod, ss[1..])
    else Concat(BlockBytes(m, mod, ss[0]), Blocks(m, mod, ss[1..]))
  }

  /** Every block is its header, its section's bytes and its padding. */
  lemma {:induction false} BlocksLength(m: Machine, mod: Module, ss: seq<Section>)
    requires WellFormed(m) && Blocks(m, mod, ss).Ok?
    ensures |Blocks(m, mod, ss).value| == BLK_HDR_SIZE * EligibleCount(ss) + EligibleSize(ss) + TotalPadding(ss)
  {
    if |ss| > 0 {
      BlocksLength(m, mod, ss[1..]);
      if Eligible(ss[0]) {
        BlockLayout(m, mod, ss[0]);
      }
    }
  }

  // ---------------------------------------------------------------------
  // simple_write_module

  /** The header written before the blocks: the block count is taken to be
      the number of sections less the bss sections, and the size is the text
      and data size plus one block header per block (uint32_t fields). */
  function InitialModuleHeader(mod: Module): (h: ModuleHeader)
    ensures h.modType == FW_BASE
    ensures 0 <= mod.numSections - mod.numBss < U32_MOD ==> h.numBlocks == mod.numSections - mod.numBss
    ensures mod.textSize + mod.dataSize + BLK_HDR_SIZE * h.numBlocks < U32_MOD ==>
              h.size == mod.textSize + mod.dataSize + BLK_HDR_SIZE * h.numBlocks
  {
    var n := Wrap32(mod.numSections - mod.numBss);
    ModuleHeader(FW_BASE, Wrap32(mod.textSize + mod.dataSize + BLK_HDR_SIZE * n), n)
  }

  /** The header rewritten after the blocks: the size grows by the padding. */
  function FinalModuleHeader(mod: Module, padding: nat): (h: ModuleHeader)
    ensures h == InitialModuleHeader(mod).(size := h.size)
    ensures InitialModuleHeader(mod).size + padding < U32_MOD ==> h.size == InitialModuleHeader(mod).size + padding
  {
    var h := InitialModuleHeader(mod);
    h.(size := Wrap32(h.size + padding))
  }

  /** The section loop of simple_write_module from section `i` on, with the
      padding summed so far: a section that is not eligible is skipped, the
      first block that fails ends the loop with its error. */
  function SectionsSpec(m: Machine, mod: Module, i: nat, st: StreamState, padding: nat): (r: Step<nat>)
    requires WellShaped(m) && Valid(st) && i <= |mod.sections|
    ensures Valid(r.st) && r.st.capacity == st.capacity && |st.data| <= |r.st.data|
    decreases |mod.sections| - i
  {
    if i == |mod.sections| then Step(st, Ok(padding))
    else
      var s := mod.sections[i];
      if !Eligible(s) then SectionsSpec(m, mod, i + 1, st, padding)
      else
        var b := BlockSpec(m, mod, s, st);
        if b.res.Err? then b
        else SectionsSpec(m, mod, i + 1, b.st, padding + b.res.value)
  }

  /** simple_write_module: remember where the header goes, write it, pack the
      sections, then seek back, rewrite the header with the padding added and
      seek forward to where the blocks end. Returns the padding. */
  function ModuleSpec(m: Machine, mod: Module, st: StreamState): (r: Step<nat>)
    requires WellShaped(m) && Valid(st)
    ensures Valid(r.st) && r.st.capacity == st.capacity && |st.data| <= |r.st.data|
  {
    var ptrHdr := st.pos;
    var h := EncodeModuleHeader(InitialModuleHeader(mod));
    if !Fits(st, |h|) then Step(st, Err(WriteFailed))
    else
      var r := SectionsSpec(m, mod, 0, Put(st, h), 0);
      if r.res.Err? then r
      else
        var ptrCur := r.st.pos;
        var st2 := Put(r.st.(pos := ptrHdr), EncodeModuleHeader(FinalModuleHeader(mod, r.res.value)));
        Step(st2.(pos := ptrCur), r.res)
  }

  /** The bytes simple_write_module leaves in the file for a module: the final
      module header, then its blocks. */
  function ModuleBytes(m: Machine, mod: Module): Result<seq<byte>>
    requires WellShaped(m)
  {
    Concat(Ok(EncodeModuleHeader(FinalModuleHeader(mod, TotalPadding(mod.sections)))), Blocks(m, mod, mod.sections))
  }

  lemma {:induction false} SectionsSpecAppends(m: Machine, mod: Module, i: nat, st: StreamState, padding: nat)
    requires WellShaped(m) && Valid(st) && i <= |mod.sections| && st.pos == |st.data|
    ensures AppendsAs(st, SectionsSpec(m, mod, i, st, padding), Blocks(m, mod, mod.sections[i..]))
    ensures var r := SectionsSpec(m, mod, i, st, padding);
            r.res.Ok? ==> r.res.value == padding + TotalPadding(mod.sections[i..])
    decreases |mod.sections| - i
  {
    var ss := mod.sections[i..];
    if i == |mod.sections| {
      assert ss == [];
      NothingAppends(st, padding);
      return;
    }
    assert ss[0] == mod.sections[i] && ss[1..] == mod.sections[i + 1..];
    var s := mod.sections[i];
    if !Eligible(s) {
      SectionsSpecAppends(m, mod, i + 1, st, padding);
      return;
    }
    var b := BlockSpec(m, mod, s, st);
    BlockSpecAppends(m, mod, s, st);
    if b.res.Err? {
      AppendsThen(st, b, BlockBytes(m, mod, s), b, Blocks(m, mod, ss[1..]));
      return;
    }
    var rest := SectionsSpec(m, mod, i + 1, b.st, padding + b.res.value);
    SectionsSpecAppends(m, mod, i + 1, b.st, padding + b.res.value);
    AppendsThen(st, b, BlockBytes(m, mod, s), rest, Blocks(m, mod, ss[1..]));
  }

  /** On a stream positioned at its end, simple_write_module appends the final
      module header and the blocks, leaves the cursor after the last block and
      returns the module's total padding: the header rewrite changes only the
      header's own bytes. It succeeds precisely when every eligible section is
      packed and everything fits; an error other than a failed write is the
      error of the first eligible section that cannot be packed. */
  lemma ModuleSpecAppends(m: Machine, mod: Module, st: StreamState)
    requires WellShaped(m) && Valid(st) && st.pos == |st.data|
    ensures AppendsAs(st, ModuleSpec(m, mod, st), ModuleBytes(m, mod))
    ensures ModuleSpec(m, mod, st).res.Ok? ==> ModuleSpec(m, mod, st).res.value == TotalPadding(mod.sections)
  {
    var h := EncodeModuleHeader(InitialModuleHeader(mod));
    var blocks := Blocks(m, mod, mod.sections);
    if Fits(st, |h|) {
      assert mod.sections[0..] == mod.sections;
      var st1 := Put(st, h);
      PutAppends(st, h);
      SectionsSpecAppends(m, mod, 0, st1, 0);
      var r := SectionsSpec(m, mod, 0, st1, 0);
      if r.res.Ok? {
        assert r.res.value == TotalPadding(mod.sections);
        var h2 := EncodeModuleHeader(FinalModuleHeader(mod, r.res.value));
        assert st1.data + blocks.value == st.data + h + blocks.value;
        RewriteInPlace(st.data, h, blocks.value, h2, r.st);
      }
    }
  }

  /** The module header accounts exactly for the blocks behind it (their
      headers, payloads and padding) when the ELF reader's figures agree with
      the sections: the text and data size is the size of the eligible
      sections, and the section count less the bss count is the number of
      eligible sections. An ELF file has fewer than 2^16 sections. */
  lemma ModuleSizeAccountsForBlocks(m: Machine, mod: Module)
    requires WellFormed(m) && Blocks(m, mod, mod.sections).Ok?
    requires |mod.sections| < 0x1_0000
    requires mod.textSize + mod.dataSize == EligibleSize(mod.sections)
    requires mod.numSections - mod.numBss == EligibleCount(mod.sections)
    ensures var h := FinalModuleHeader(mod, TotalPadding(mod.sections));
            && h.numBlocks == EligibleCount(mod.sections)
            && h.size == Wrap32(|Blocks(m, mod, mod.sections).value|)
  {
    var ss := mod.sections;
    EligibleCountBound(ss);
    BlocksLength(m, mod, ss);
    WrapAdd(mod.textSize + mod.dataSize + BLK_HDR_SIZE * EligibleCount(ss), TotalPadding(ss));
  }

  lemma {:induction false} EligibleCountBound(ss: seq<Section>)
    ensures EligibleCount(ss) <= |ss|
  {
    if |ss| > 0 {
      EligibleCountBound(ss[1..]);
    }
  }

  /** A non-bss section that fails the flag test (an unallocated .comment
      section, say) still counts towards num_blocks, but no block is written
      for it: the header then announces a block that is not there. */
  lemma NumBlocksCanDisagree()
    ensures var s := Section(0, 0x20, 0x100, SHT_PROGBITS, 0);
            var mod := Module([], [s], 1, 0, 0, 0, 0, 0, 0, 0);
            && InitialModuleHeader(mod).numBlocks == 1
            && EligibleCount(mod.sections) == 0
            && Blocks(MACHINE_BYT, mod, mod.sections) == Ok([])
  {
    var s := Section(0, 0x20, 0x100, SHT_PROGBITS, 0);
    assert !Eligible(s);
    var ss := [s];
    assert ss[1..] == [];
  }

  // ---------------------------------------------------------------------
  // simple_write_module_reloc and write_block_reloc

  /** The module header of a relocatable module: one block, and the text and
      data size as its size. */
  function RelocModuleHeader(mod: Module): ModuleHeader {
    ModuleHeader(FW_BASE, Wrap32(mod.textSize + mod.dataSize), 1)
  }

  /** The single block holding the whole ELF file, loaded at offset 0 of DRAM. */
  function RelocBlockHeader(mod: Module): BlockHeader {
    BlockHeader(BLK_TYPE_DRAM, Wrap32(mod.fileSize), 0)
  }

  /** write_block_reloc: the block header, then module->file_size bytes read
      from the start of the ELF file. Returns 0. */
  function BlockRelocSpec(mod: Module, st: StreamState): (r: Step<nat>)
    requires Valid(st)
    ensures Valid(r.st) && r.st.capacity == st.capacity && |st.data| <= |r.st.data|
    ensures r.res.Ok? ==> r.res.value == 0
    ensures r.res.Err? ==> r.res.error == WriteFailed || r.res.error == ReadFailed
  {
    var h := EncodeBlockHeader(RelocBlockHeader(mod));
    if !Fits(st, |h|) then Step(st, Err(WriteFailed))
    else
      var st1 := Put(st, h);
      match ReadAt(mod.file, 0, mod.fileSize)
      case None => Step(st1, Err(ReadFailed))
      case Some(payload) =>
        if !Fits(st1, |payload|) then Step(st1, Err(WriteFailed))
        else Step(Put(st1, payload), Ok(0))
  }

  /** simple_write_module_reloc: the module header, then the one block; no
      padding is added. */
  function ModuleRelocSpec(mod: Module, st: StreamState): (r: Step<nat>)
    requires Valid(st)
    ensures Valid(r.st) && r.st.capacity == st.capacity && |st.data| <= |r.st.data|
    ensures r.res.Ok? ==> r.res.value == 0
    ensures r.res.Err? ==> r.res.error == WriteFailed || r.res.error == ReadFailed
  {
    var h := EncodeModuleHeader(RelocModuleHeader(mod));
    if !Fits(st, |h|) then Step(st, Err(WriteFailed))
    else
      var r := BlockRelocSpec(mod, Put(st, h));
      if r.res.Err? then r else Step(r.st, Ok(0))
  }

  /** The block of a relocatable module: its header and the ELF file. */
  function RelocBlockBytes(mod: Module): Result<seq<byte>> {
    if mod.fileSize <= |mod.file| then Ok(EncodeBlockHeader(RelocBlockHeader(mod)) + mod.file[..mod.fileSize])
    else Err(ReadFailed)
  }

  /** The bytes a relocatable module occupies in the image. */
  function RelocBytes(mod: Module): Result<seq<byte>> {
    Concat(Ok(EncodeModuleHeader(RelocModuleHeader(mod))), RelocBlockBytes(mod))
  }

  /** A relocatable module is a module header announcing one block, a DRAM
      block header at offset 0 of the file's size, and the file itself. */
  lemma RelocLayout(mod: Module)
    requires RelocBytes(mod).Ok?
    ensures var b := RelocBytes(mod).value;
            && |b| == MOD_HDR_SIZE + BLK_HDR_SIZE + mod.fileSize
            && DecodeModuleHeader(b[..MOD_HDR_SIZE]) == ModuleHeader(FW_BASE, Wrap32(mod.textSize + mod.dataSize), 1)
            && DecodeBlockHeader(b[MOD_HDR_SIZE..MOD_HDR_SIZE + BLK_HDR_SIZE]) == BlockHeader(BLK_TYPE_DRAM, Wrap32(mod.fileSize), 0)
            && b[MOD_HDR_SIZE + BLK_HDR_SIZE..] == mod.file[..mod.fileSize]
  {
    var b := RelocBytes(mod).value;
    var mh := EncodeModuleHeader(RelocModuleHeader(mod));
    var bh := EncodeBlockHeader(RelocBlockHeader(mod));
    assert b == mh + (bh + mod.file[..mod.fileSize]);
    assert b[..MOD_HDR_SIZE] == mh;
    assert b[MOD_HDR_SIZE..MOD_HDR_SIZE + BLK_HDR_SIZE] == bh;
    ModuleHeaderRoundTrip(RelocModuleHeader(mod));
    BlockHeaderRoundTrip(RelocBlockHeader(mod));
  }

  /** On a stream positioned at its end, write_block_reloc appends the block
      header and the file; it fails precisely when the file is shorter than
      module->file_size or the output is full. */
  lemma BlockRelocSpecAppends(mod: Module, st: StreamState)
    requires Valid(st) && st.pos == |st.data|
    ensures AppendsAs(st, BlockRelocSpec(mod, st), RelocBlockBytes(mod))
    ensures BlockRelocSpec(mod, st).res.Ok? ==> BlockRelocSpec(mod, st).res.value == 0
  {
    var h := EncodeBlockHeader(RelocBlockHeader(mod));
    var w := PutStep(st, h, ());
    PutStepAppends(st, h, ());
    var st1 := Put(st, h);
    if mod.fileSize <= |mod.file| {
      var payload := mod.file[..mod.fileSize];
      assert mod.file[0..mod.fileSize] == payload;
      var w2 := PutStep(st1, payload, 0);
      if Fits(st, |h|) {
        PutStepAppends(st1, payload, 0);
      }
      AppendsThen(st, w, Ok(h), w2, Ok(payload));
      assert BlockRelocSpec(mod, st) == Then(w, w2);
    } else {
      var fail: Step<nat> := Step(st1, Err(ReadFailed));
      AppendsThen(st, w, Ok(h), fail, Err(ReadFailed));
      assert BlockRelocSpec(mod, st) == Then(w, fail);
    }
  }

  /** On a stream positioned at its end, simple_write_module_reloc appends the
      relocatable module and returns 0. */
  lemma ModuleRelocSpecAppends(mod: Module, st: StreamState)
    requires Valid(st) && st.pos == |st.data|
    ensures AppendsAs(st, ModuleRelocSpec(mod, st), RelocBytes(mod))
    ensures ModuleRelocSpec(mod, st).res.Ok? ==> ModuleRelocSpec(mod, st).res.value == 0
  {
    var h := EncodeModuleHeader(RelocModuleHeader(mod));
    var w := PutStep(st, h, ());
    PutStepAppends(st, h, ());
    var r := BlockRelocSpec(mod, Put(st, h));
    if Fits(st, |h|) {
      BlockRelocSpecAppends(mod, Put(st, h));
    }
    AppendsThen(st, w, Ok(h), r, RelocBlockBytes(mod));
    assert ModuleRelocSpec(mod, st) == Then(w, r);
  }
}

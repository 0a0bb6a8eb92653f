/** struct image and the writers of file_simple.c that work on it: the firmware
    image goes to `out`, the log dictionary to `ldcOut`. Each method follows
    its C function statement by statement and is proved against the step
    function or the layout that specifies it. */
module Packer {
  import opened Bytes
  import opened Results
  import opened Stream
  import opened FileFormat
  import opened ElfInput
  import opened Zones
  import opened BlockPacker
  import opened ModulePacker
  import opened FirmwarePacker
  import opened LogsDictionary

  /** What the module loop leaves after a header of FW_HDR_SIZE bytes, in the
      terms simple_write_firmware's outcome is stated in. */
  lemma AfterHeader<T>(h: seq<byte>, body: Result<seq<byte>>, st: StreamState, step: Step<T>)
    requires |h| == FW_HDR_SIZE && st.data == h
    requires AppendsAs(st, step, body)
    ensures step.res.Ok? <==> body.Ok? && FW_HDR_SIZE + |body.value| <= st.capacity
    ensures step.res.Ok? ==> step.st.data == h + body.value && step.st.pos == |step.st.data|
    ensures step.res.Err? && step.res.error != WriteFailed ==> body == Err(step.res.error)
  {
  }

  /** The module loop run after the provisional header `h`: the file holds
      the header and the packed modules, and on success the loop's running
      size is the file size of the final header. */
  lemma ModulesAfterHeader(m: Machine, mods: seq<Module>, reloc: bool, h: seq<byte>, st: StreamState, fileSize: u32, step: Step<u32>)
    requires WellShaped(m) && Valid(st) && |h| == FW_HDR_SIZE && st.data == h && st.pos == |h|
    requires fileSize == Wrap32(SumFwSize(mods))
    requires step == ModulesSpec(m, mods, reloc, 0, st, fileSize)
    ensures var body := ModulesImage(m, mods, reloc);
            && (step.res.Ok? <==> body.Ok? && FW_HDR_SIZE + |body.value| <= st.capacity)
            && (step.res.Ok? ==> step.st.data == h + body.value && step.st.pos == |step.st.data|)
            && (step.res.Err? && step.res.error != WriteFailed ==> body == Err(step.res.error))
    ensures step.res.Ok? ==> FirmwareHeader(step.res.value, Wrap32(|mods|), FW_ABI) == FinalHeader(mods, reloc)
  {
    ModulesSpecWrites(m, mods, reloc, st, fileSize, step);
    AfterHeader(h, ModulesImage(m, mods, reloc), st, step);
    if step.res.Ok? {
      FinalHeaderFromSizes(mods, reloc, fileSize, step.res.value);
    }
  }

  class Image {
    const out: OutStream
    const ldcOut: OutStream
    const machine: Machine
    const reloc: bool
    var modules: seq<Module>

    ghost predicate Valid()
      reads this, out, ldcOut
    {
      out.Valid() && ldcOut.Valid() && out != ldcOut && WellShaped(machine)
    }

    constructor (out: OutStream, ldcOut: OutStream, machine: Machine, reloc: bool, modules: seq<Module>)
      requires out.Valid() && ldcOut.Valid() && out != ldcOut && WellShaped(machine)
      ensures Valid()
      ensures this.out == out && this.ldcOut == ldcOut && this.machine == machine
      ensures this.reloc == reloc && this.modules == modules
    {
      this.out := out;
      this.ldcOut := ldcOut;
      this.machine := machine;
      this.reloc := reloc;
      this.modules := modules;
    }

    /** write_block: returns the padding written after the section. */
    method WriteBlock(mod: Module, s: Section) returns (r: Result<nat>)
      requires Valid()
      modifies out
      ensures Valid()
      ensures Step(out.State(), r) == BlockSpec(machine, mod, s, old(out.State()))
    {
      var t := GetMemZoneType(machine, s);
      if t == BLK_TYPE_INVALID {
        return Err(InvalidBlockAddress(s.vaddr, s.size));
      }
      var ok := out.Write(EncodeBlockHeader(BlockHeaderFor(machine, s, t)));
      if !ok {
        return Err(WriteFailed);
      }
      var payload := ReadAt(mod.file, s.off, s.size);
      if payload.None? {
        return Err(ReadFailed);
      }
      var buffer := PaddedBuffer(payload.value, s.size);
      ok := out.Write(buffer[..PaddedSize(s.size)]);
      if !ok {
        return Err(WriteFailed);
      }
      return Ok(Padding(s.size));
    }

    /** The section loop of simple_write_module: write a block for every
        eligible section and sum their padding, stopping at the first block
        that fails. */
    method WriteSections(mod: Module) returns (r: Result<nat>)
      requires Valid()
      modifies out
      ensures Valid()
      ensures Step(out.State(), r) == SectionsSpec(machine, mod, 0, old(out.State()), 0)
    {
      ghost var total := SectionsSpec(machine, mod, 0, out.State(), 0);
      var padding: nat := 0;
      var i := 0;
      while i < |mod.sections|
        invariant i <= |mod.sections| && Valid()
        invariant SectionsSpec(machine, mod, i, out.State(), padding) == total
      {
        var s := mod.sections[i];
        if Eligible(s) {
          var b := WriteBlock(mod, s);
          if b.Err? {
            return b;
          }
          padding := padding + b.value;
        }
        i := i + 1;
      }
      return Ok(padding);
    }

    /** simple_write_module: returns the module's padding. */
    method WriteModule(mod: Module) returns (r: Result<nat>)
      requires Valid()
      modifies out
      ensures Valid()
      ensures Step(out.State(), r) == ModuleSpec(machine, mod, old(out.State()))
    {
      var hdr := InitialModuleHeader(mod);
      var ptrHdr := out.Tell();
      var ok := out.Write(EncodeModuleHeader(hdr));
      if !ok {
        return Err(WriteFailed);
      }
      var p := WriteSections(mod);
      if p.Err? {
        return p;
      }
      var padding := p.value;
      hdr := FinalModuleHeader(mod, padding);
      var ptrCur := out.Tell();
      out.Seek(ptrHdr);
      // Rewriting bytes that are already in the file cannot come up short.
      ok := out.Write(EncodeModuleHeader(hdr));
      out.Seek(ptrCur);
      return Ok(padding);
    }

    /** write_block_reloc: returns 0. */
    method WriteBlockReloc(mod: Module) returns (r: Result<nat>)
      requires Valid()
      modifies out
      ensures Valid()
      ensures Step(out.State(), r) == BlockRelocSpec(mod, old(out.State()))
    {
      var ok := out.Write(EncodeBlockHeader(RelocBlockHeader(mod)));
      if !ok {
        return Err(WriteFailed);
      }
      var payload := ReadAt(mod.file, 0, mod.fileSize);
      if payload.None? {
        return Err(ReadFailed);
      }
      ok := out.Write(payload.value);
      if !ok {
        return Err(WriteFailed);
      }
      return Ok(0);
    }

    /** simple_write_module_reloc: returns 0. */
    method WriteModuleReloc(mod: Module) returns (r: Result<nat>)
      requires Valid()
      modifies out
      ensures Valid()
      ensures Step(out.State(), r) == ModuleRelocSpec(mod, old(out.State()))
    {
      var ok := out.Write(EncodeModuleHeader(RelocModuleHeader(mod)));
      if !ok {
        return Err(WriteFailed);
      }
      r := WriteBlockReloc(mod);
      if r.Err? {
        return r;
      }
      return Ok(0);
    }

    /** The module step of simple_write_firmware's second loop for module i:
        the relocatable or the plain module writer, as the image is
        configured. On an output positioned at its end it appends the module's
        bytes and returns its padding, or fails as the module's layout or the
        capacity dictates. */
    method PackModule(i: nat) returns (r: Result<nat>)
      requires Valid() && out.pos == |out.data| && i < |modules|
      modifies out
      ensures Valid()
      ensures Step(out.State(), r) == ModuleStep(machine, modules[i], reloc, old(out.State()))
    {
      if reloc {
        r := WriteModuleReloc(modules[i]);
      } else {
        r := WriteModule(modules[i]);
      }
    }

    /** The first loop of simple_write_firmware: every module's fw_size grows
        by its header estimate, and the provisional file size is their sum
        (uint32_t arithmetic). */
    method EstimateModuleSizes() returns (fileSize: u32)
      modifies this
      ensures modules == EstimateAll(old(modules))
      ensures fileSize == Wrap32(SumFwSize(modules))
    {
      ghost var mods0 := modules;
      fileSize := 0;
      var i := 0;
      while i < |modules|
        invariant i <= |modules| == |mods0|
        invariant forall k :: 0 <= k < i ==> modules[k] == Estimated(mods0[k])
        invariant forall k :: i <= k < |modules| ==> modules[k] == mods0[k]
        invariant fileSize == Wrap32(SumFwSize(modules[..i]))
      {
        ghost var prev := modules;
        modules := modules[i := Estimated(modules[i])];
        assert modules[..i + 1][..i] == prev[..i];
        WrapAdd(SumFwSize(prev[..i]), modules[i].fwSize);
        fileSize := Wrap32(fileSize + modules[i].fwSize);
        i := i + 1;
      }
      assert modules[..i] == modules;
    }

    /** The second loop of simple_write_firmware: pack every module in turn,
        adding each module's padding to the file size. On an output positioned
        at its end it appends the packed modules and returns the file size
        grown by their padding, or stops at the first module that fails. */
    method WriteModules(fileSize: u32) returns (r: Result<u32>)
      requires Valid() && out.pos == |out.data|
      modifies out
      ensures Valid()
      ensures Step(out.State(), r) == ModulesSpec(machine, modules, reloc, 0, old(out.State()), fileSize)
    {
      ghost var total := ModulesSpec(machine, modules, reloc, 0, out.State(), fileSize);
      var size: u32 := fileSize;
      var i := 0;
      while i < |modules|
        invariant i <= |modules| && Valid() && out.pos == |out.data|
        invariant ModulesSpec(machine, modules, reloc, i, out.State(), size) == total
      {
        ghost var before := out.State();
        var p := PackModule(i);
        ModulesTurn(machine, modules, reloc, i, before, size, out.State(), p);
        if p.Err? {
          return Err(p.error);
        }
        size := Wrap32(size + p.value);
        i := i + 1;
      }
      return Ok(size);
    }

    /** The end of simple_write_firmware: seek back to the start of the file,
        write the final header over the provisional one and stay just past it. */
    method RewriteHeader(hdr: FirmwareHeader, ghost h: seq<byte>, ghost body: seq<byte>)
      requires Valid() && |h| == FW_HDR_SIZE && out.data == h + body && out.pos == |out.data|
      modifies out
      ensures Valid()
      ensures out.data == EncodeFirmwareHeader(hdr) + body && out.pos == FW_HDR_SIZE
    {
      out.Seek(0);
      PutRewrites([], h, body, EncodeFirmwareHeader(hdr), out.capacity);
      assert [] + h + body == out.data;
      // Rewriting bytes that are already in the file cannot come up short.
      var ok := out.Write(EncodeFirmwareHeader(hdr));
      assert [] + EncodeFirmwareHeader(hdr) + body == EncodeFirmwareHeader(hdr) + body;
    }

    /** The image file simple_write_firmware leaves, given its outcome `r`:
        it succeeds exactly when every module can be packed and the image
        fits; the file then holds the final firmware header followed by the
        packed modules, with the cursor just past the header; an error other
        than a failed write is the one of the first module that cannot be
        packed. */
    ghost predicate Written(r: Result<()>)
      reads this, out
    {
      && WellShaped(machine)
      && var body := ModulesImage(machine, modules, reloc);
         && (r.Ok? <==> body.Ok? && FW_HDR_SIZE + |body.value| <= out.capacity)
         && (r.Ok? ==> out.data == EncodeFirmwareHeader(FinalHeader(modules, reloc)) + body.value
                       && out.pos == FW_HDR_SIZE)
         && (r.Err? && r.error != WriteFailed ==> body == Err(r.error))
    }

    /** simple_write_firmware after the first loop, on an empty image file:
        the provisional header, the packed modules, then the final header
        written over the provisional one. It succeeds exactly when every
        module can be packed and the image fits; an error other than a failed
        write is the one of the first module that cannot be packed. */
    method WriteImage(fileSize: u32) returns (r: Result<()>)
      requires Valid() && out.data == [] && out.pos == 0
      requires fileSize == Wrap32(SumFwSize(modules))
      modifies out
      ensures Valid()
      ensures Written(r)
    {
      ghost var body := ModulesImage(machine, modules, reloc);
      var hdr := FirmwareHeader(fileSize, Wrap32(|modules|), FW_ABI);
      var h := EncodeFirmwareHeader(hdr);
      var ok := out.Write(h);
      if !ok {
        return Err(WriteFailed);
      }
      assert out.data == [] + h;
      ghost var st := out.State();
      var written := WriteModules(fileSize);
      ModulesAfterHeader(machine, modules, reloc, h, st, fileSize, Step(out.State(), written));
      if written.Err? {
        return Err(written.error);
      }
      hdr := hdr.(fileSize := written.value);
      RewriteHeader(hdr, h, body.value);
      return Ok(());
    }

    /** simple_write_firmware on an empty image file. Every module's fw_size
        grows by its header estimate; the file then holds the final firmware
        header followed by the packed modules, and the cursor is just past the
        header. It succeeds exactly when every module can be packed and the
        image fits; an error other than a failed write is the one of the first
        module that cannot be packed. When the modules' figures agree with
        their sections, the header's file size is the size of what follows it. */
    method WriteFirmware() returns (r: Result<()>)
      requires Valid() && out.data == [] && out.pos == 0
      modifies this, out
      ensures Valid()
      ensures modules == EstimateAll(old(modules))
      ensures Written(r)
      ensures r.Ok? && !reloc && WellFormed(machine) && (forall i :: 0 <= i < |old(modules)| ==> Consistent(old(modules)[i]))
              ==> DecodeFirmwareHeader(out.data[..FW_HDR_SIZE]) == Some(FirmwareHeader(Wrap32(|out.data| - FW_HDR_SIZE), Wrap32(|modules|), FW_ABI))
    {
      ghost var mods0 := modules;
      var fileSize := EstimateModuleSizes();
      r := WriteImage(fileSize);
      if r.Ok? && !reloc && WellFormed(machine) && forall k :: 0 <= k < |mods0| ==> Consistent(mods0[k]) {
        FirmwareFileHeader(machine, mods0, modules, out.data);
      }
    }

    /** The log entries of one module: its logs header with `version`, then
        the section's bytes. As in the source, the header write is not
        checked: the header is in the file whenever it fitted, even when the
        read then fails, and a header that did not fit does not stop the
        payload from being written. */
    method WriteLogsRecord(mod: Module, version: seq<byte>) returns (r: Result<()>)
      requires Valid() && ldcOut.pos == |ldcOut.data|
      requires IndicesInRange(mod) && mod.logsIndex > 0 && |version| == FW_VERSION_SIZE
      modifies ldcOut
      ensures Valid() && ldcOut.pos == |ldcOut.data|
      ensures Step(ldcOut.State(), r) == RecordSpec(mod, version, old(ldcOut.State()))
      ensures var h := EncodeLogsHeader(RecordHeader(mod, version));
              && (r.Ok? ==> LogsPayload(mod).Some?)
              && (LogsPayload(mod).Some? && |old(ldcOut.data)| + |h| + |LogsPayload(mod).value| <= ldcOut.capacity
                  ==> r.Ok? && ldcOut.data == old(ldcOut.data) + (h + LogsPayload(mod).value))
              && (r.Err? ==> || (r.error == ReadFailed && LogsPayload(mod).None?)
                             || (r.error == WriteFailed && LogsPayload(mod).Some?
                                 && |old(ldcOut.data)| + |h| + |LogsPayload(mod).value| > ldcOut.capacity))
    {
      ghost var d := ldcOut.data;
      var s := mod.sections[mod.logsIndex];
      var h := EncodeLogsHeader(LogsHeader(s.vaddr, s.size, LOGS_HDR_SIZE, version));
      // As in the source, the header write is not checked.
      var hdrWritten := ldcOut.Write(h);
      var payload := ReadAt(mod.file, s.off, s.size);
      if payload.None? {
        return Err(ReadFailed);
      }
      var ok := ldcOut.Write(payload.value);
      if !ok {
        return Err(WriteFailed);
      }
      assert d + h + payload.value == d + (h + payload.value);
      return Ok(());
    }

    /** One iteration of write_logs_dictionary's loop for module `mod`, with
        `version` in the header: read the version from the .fw_ready section
        if there is one, then write the logs header and the log entries if
        there are any. Returns the version the next iteration carries. The
        header write is not checked, as in the source; when the entry fits,
        the file gains exactly the entry. */
    method WriteLogsEntry(mod: Module, version: seq<byte>) returns (r: Result<seq<byte>>)
      requires Valid() && ldcOut.pos == |ldcOut.data|
      requires IndicesInRange(mod) && |version| == FW_VERSION_SIZE
      modifies ldcOut
      ensures Valid() && ldcOut.pos == |ldcOut.data|
      ensures Step(ldcOut.State(), r) == EntrySpec(mod, version, old(ldcOut.State()))
      ensures var e := LogsEntry(mod, version);
              && (r.Ok? ==> e.Ok? && r.value == e.value.version)
              && (e.Ok? && |old(ldcOut.data)| + |e.value.bytes| <= ldcOut.capacity
                  ==> r.Ok? && ldcOut.data == old(ldcOut.data) + e.value.bytes)
              && (r.Err? ==> || (r.error == ReadFailed && e.Err?)
                             || (r.error == WriteFailed && e.Ok?
                                 && |old(ldcOut.data)| + |e.value.bytes| > ldcOut.capacity))
    {
      ghost var d := ldcOut.data;
      var v := version;
      if mod.fwReadyIndex > 0 {
        var ready := ReadAt(mod.file, mod.sections[mod.fwReadyIndex].off, FW_READY_SIZE);
        if ready.None? {
          return Err(ReadFailed);
        }
        v := VersionOf(ready.value);
      }
      if mod.logsIndex > 0 {
        var w := WriteLogsRecord(mod, v);
        if w.Err? {
          return Err(w.error);
        }
      } else {
        assert d + [] == d;
      }
      return Ok(v);
    }

    /** write_logs_dictionary: every module's entry in turn. `staleVersion`
        stands for what the header's version field holds before the first
        .fw_ready section (in the source, uninitialised stack memory). When
        the dictionary fits, the file gains exactly the dictionary; a failed
        read makes the dictionary an error; a failed write means the reads
        failed or the dictionary does not fit. */
    method WriteLogsDictionary(staleVersion: seq<byte>) returns (r: Result<()>)
      requires Valid() && ldcOut.pos == |ldcOut.data|
      requires AllInRange(modules) && |staleVersion| == FW_VERSION_SIZE
      modifies ldcOut
      ensures Valid() && ldcOut.pos == |ldcOut.data|
      ensures Step(ldcOut.State(), r) == DictionarySpec(modules, 0, staleVersion, old(ldcOut.State()))
      ensures DictionaryOutcome(old(ldcOut.data), ldcOut.data, ldcOut.capacity, LogsImage(modules, staleVersion), r)
    {
      ghost var d0 := ldcOut.data;
      ghost var total := DictionarySpec(modules, 0, staleVersion, ldcOut.State());
      ghost var prefix := Entry(staleVersion, []);
      var version := staleVersion;
      var i := 0;
      AllInRangePrefix(modules, 0);
      assert d0 + [] == d0;
      while i < |modules|
        invariant i <= |modules| && Valid() && ldcOut.pos == |ldcOut.data|
        invariant AllInRange(modules[..i]) && LogsImage(modules[..i], staleVersion) == Ok(prefix)
        invariant version == prefix.version
        invariant |d0| + |prefix.bytes| <= ldcOut.capacity ==> ldcOut.data == d0 + prefix.bytes
        invariant DictionarySpec(modules, i, version, ldcOut.State()) == total
      {
        LogsImageStep(modules, staleVersion, i);
        ghost var e := LogsEntry(modules[i], version);
        ghost var prev := ldcOut.data;
        ghost var before := ldcOut.State();
        var next := WriteLogsEntry(modules[i], version);
        DictionaryTurn(modules, i, version, before, ldcOut.State(), next);
        if next.Err? {
          if next.error == ReadFailed {
            LogsImageKeepsError(modules, staleVersion, i + 1);
          } else {
            AppendsSoFar(d0, prefix.bytes, e.value.bytes, prev, ldcOut.data, ldcOut.capacity);
            LongerThanRoom(modules, staleVersion, i + 1, ldcOut.capacity - |d0|);
          }
          return Err(next.error);
        }
        AppendsSoFar(d0, prefix.bytes, e.value.bytes, prev, ldcOut.data, ldcOut.capacity);
        prefix := Entry(next.value, prefix.bytes + e.value.bytes);
        version := next.value;
        i := i + 1;
      }
      assert modules[..i] == modules;
      return Ok(());
    }
  }
}

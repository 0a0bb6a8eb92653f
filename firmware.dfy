/** The image writer (simple_write_firmware): the firmware header with a
    provisional file size, then every module, then the header again with the
    module paddings added to the file size. */
module FirmwarePacker {
  import opened Bytes
  import opened Results
  import opened Stream
  import opened FileFormat
  import opened ElfInput
  import opened Zones
  import opened BlockPacker
  import opened ModulePacker

  // ---------------------------------------------------------------------
  // The size estimate of the first loop

  /** What simple_write_firmware adds to module->fw_size before writing: one
      block header per non-bss section and one module header per module.
      Deviation from the source: file_simple.c adds sizeof(mod_hdr) times the
      number of modules to every module (lines 339-340); see
      EstimatedAsWritten. */
  function Estimated(mod: Module): Module {
    mod.(fwSize := mod.fwSize + BLK_HDR_SIZE * (mod.numSections - mod.numBss) + MOD_HDR_SIZE)
  }

  /** The estimate as file_simple.c computes it, with `numModules` the
      header's num_modules field. */
  function EstimatedAsWritten(mod: Module, numModules: u32): (r: Module)
    ensures r.fwSize == Estimated(mod).fwSize + MOD_HDR_SIZE * (numModules - 1)
    ensures r == mod.(fwSize := r.fwSize)
  {
    mod.(fwSize := mod.fwSize + BLK_HDR_SIZE * (mod.numSections - mod.numBss) + MOD_HDR_SIZE * numModules)
  }

  /** The first loop of simple_write_firmware: every module estimated. */
  function EstimateAll(mods: seq<Module>): (r: seq<Module>)
    ensures |r| == |mods| && forall i :: 0 <= i < |mods| ==> r[i] == Estimated(mods[i])
  {
    if |mods| == 0 then [] else EstimateAll(mods[..|mods| - 1]) + [Estimated(mods[|mods| - 1])]
  }

  /** The first loop as written, for a header announcing `numModules`. */
  function EstimateAllAsWritten(mods: seq<Module>, numModules: u32): (r: seq<Module>)
    ensures |r| == |mods| && forall i :: 0 <= i < |mods| ==> r[i] == EstimatedAsWritten(mods[i], numModules)
  {
    if |mods| == 0 then [] else EstimateAllAsWritten(mods[..|mods| - 1], numModules) + [EstimatedAsWritten(mods[|mods| - 1], numModules)]
  }

  /** The sum of the modules' fw_size fields, in the order the first loop of
      simple_write_firmware adds them. */
  function SumFwSize(mods: seq<Module>): int {
    if |mods| == 0 then 0 else SumFwSize(mods[..|mods| - 1]) + mods[|mods| - 1].fwSize
  }

  /** Adding the same amount to every module's fw_size adds that amount once
      per module to the sum. */
  lemma {:induction false} SumFwSizeShift(a: seq<Module>, b: seq<Module>, d: int)
    requires |a| == |b| && forall i :: 0 <= i < |a| ==> a[i].fwSize == b[i].fwSize + d
    ensures SumFwSize(a) == SumFwSize(b) + d * |a|
  {
    if |a| > 0 {
      var n := |a| - 1;
      SumFwSizeShift(a[..n], b[..n], d);
      assert d * |a| == d * n + d;
    }
  }

  /** The provisional file size of the first loop as written counts every
      module header once per module: n modules add 12 * n * (n - 1) bytes
      that the image does not contain (24 bytes for two modules). */
  lemma AsWrittenEstimateOvercounts(mods: seq<Module>, numModules: u32)
    ensures SumFwSize(EstimateAllAsWritten(mods, numModules))
         == SumFwSize(EstimateAll(mods)) + MOD_HDR_SIZE * (numModules - 1) * |mods|
  {
    var aw := EstimateAllAsWritten(mods, numModules);
    var est := EstimateAll(mods);
    var extra := MOD_HDR_SIZE * (numModules - 1);
    forall i | 0 <= i < |mods|
      ensures aw[i].fwSize == est[i].fwSize + extra
    {
      assert MOD_HDR_SIZE * numModules == MOD_HDR_SIZE + extra;
    }
    SumFwSizeShift(aw, est, extra);
  }

  /** Two modules: the as-written provisional size is 24 bytes too large. */
  lemma TwoModulesOvercountBy24(a: Module, b: Module)
    ensures SumFwSize(EstimateAllAsWritten([a, b], 2)) == SumFwSize(EstimateAll([a, b])) + 24
  {
    AsWrittenEstimateOvercounts([a, b], 2);
  }

  /** fw_size is updated in place, so packing the same modules twice counts
      their headers twice. */
  lemma EstimateIsNotIdempotent(mods: seq<Module>)
    ensures forall i :: 0 <= i < |mods| ==>
      EstimateAll(EstimateAll(mods))[i].fwSize
        == mods[i].fwSize + 2 * (BLK_HDR_SIZE * (mods[i].numSections - mods[i].numBss) + MOD_HDR_SIZE)
  {
  }

  // ---------------------------------------------------------------------
  // The image layout

  /** The bytes of one module in the chosen format. */
  function ModuleImage(m: Machine, mod: Module, reloc: bool): Result<seq<byte>>
    requires WellShaped(m)
  {
    if reloc then RelocBytes(mod) else ModuleBytes(m, mod)
  }

  /** The padding one module adds. */
  function ModulePadding(mod: Module, reloc: bool): nat {
    if reloc then 0 else TotalPadding(mod.sections)
  }

  /** The bytes of every module, in order. */
  function ModuleImages(m: Machine, mods: seq<Module>, reloc: bool): (r: seq<Result<seq<byte>>>)
    requires WellShaped(m)
    ensures |r| == |mods| && forall k :: 0 <= k < |mods| ==> r[k] == ModuleImage(m, mods[k], reloc)
  {
    if |mods| == 0 then []
    else ModuleImages(m, mods[..|mods| - 1], reloc) + [ModuleImage(m, mods[|mods| - 1], reloc)]
  }

  /** The modules one after the other, or the error of the first module that
      cannot be packed. */
  function ModulesImage(m: Machine, mods: seq<Module>, reloc: bool): Result<seq<byte>>
    requires WellShaped(m)
  {
    Join(ModuleImages(m, mods, reloc), |mods|)
  }

  /** The module writer the image is configured with, step by step. */
  function ModuleStep(m: Machine, mod: Module, reloc: bool, st: StreamState): (r: Step<nat>)
    requires WellShaped(m) && Valid(st)
    ensures Valid(r.st) && r.st.capacity == st.capacity && |st.data| <= |r.st.data|
  {
    if reloc then ModuleRelocSpec(mod, st) else ModuleSpec(m, mod, st)
  }

  /** The second loop of simple_write_firmware from module `i` on, with the
      file size so far: each module's padding is added to it (uint32_t), and
      the first module that fails ends the loop with its error, before any
      later module is written. */
  function ModulesSpec(m: Machine, mods: seq<Module>, reloc: bool, i: nat, st: StreamState, size: u32): (r: Step<u32>)
    requires WellShaped(m) && Valid(st) && i <= |mods|
    ensures Valid(r.st) && r.st.capacity == st.capacity && |st.data| <= |r.st.data|
    decreases |mods| - i
  {
    if i == |mods| then Step(st, Ok(size))
    else
      var p := ModuleStep(m, mods[i], reloc, st);
      if p.res.Err? then Step(p.st, Err(p.res.error))
      else ModulesSpec(m, mods, reloc, i + 1, p.st, Wrap32(size + p.res.value))
  }

  /** The padding of the first n modules. */
  function SumPadding(mods: seq<Module>, reloc: bool, n: nat): nat
    requires n <= |mods|
  {
    if n == 0 then 0 else SumPadding(mods, reloc, n - 1) + ModulePadding(mods[n - 1], reloc)
  }

  /** The second loop of simple_write_firmware adds each module's padding to
      a uint32_t: the running value stays the running total modulo 2^32. */
  lemma PaddingStep(mods: seq<Module>, reloc: bool, i: nat, fileSize: int, size: u32, p: nat)
    requires i < |mods| && p == ModulePadding(mods[i], reloc)
    requires size == Wrap32(fileSize + SumPadding(mods, reloc, i))
    ensures Wrap32(size + p) == Wrap32(fileSize + SumPadding(mods, reloc, i + 1))
  {
    WrapAdd(fileSize + SumPadding(mods, reloc, i), p);
  }

  /** Writing module i appends its bytes and yields its padding. */
  lemma ModuleStepAppends(m: Machine, mod: Module, reloc: bool, st: StreamState)
    requires WellShaped(m) && Valid(st) && st.pos == |st.data|
    ensures AppendsAs(st, ModuleStep(m, mod, reloc, st), ModuleImage(m, mod, reloc))
    ensures ModuleStep(m, mod, reloc, st).res.Ok? ==> ModuleStep(m, mod, reloc, st).res.value == ModulePadding(mod, reloc)
  {
    if reloc {
      ModuleRelocSpecAppends(mod, st);
    } else {
      ModuleSpecAppends(m, mod, st);
    }
  }

  /** A module that is written adds its padding and leaves the cursor at
      the end of the file. */
  lemma ModuleStepPadding(m: Machine, mod: Module, reloc: bool, st: StreamState, after: StreamState, res: Result<nat>)
    requires WellShaped(m) && Valid(st) && st.pos == |st.data| && Step(after, res) == ModuleStep(m, mod, reloc, st)
    ensures res.Ok? ==> res.value == ModulePadding(mod, reloc) && after.pos == |after.data|
  {
    ModuleStepAppends(m, mod, reloc, st);
  }

  /** One turn of the second loop: module i either fails, which ends the
      loop with its error, or the loop goes on from the next module with the
      module's padding added to the file size. */
  lemma {:induction false} ModulesSpecNext(m: Machine, mods: seq<Module>, reloc: bool, i: nat, st: StreamState, size: u32,
                        after: StreamState, res: Result<nat>)
    requires WellShaped(m) && i < |mods| && Valid(st) && Step(after, res) == ModuleStep(m, mods[i], reloc, st)
    ensures res.Err? ==> ModulesSpec(m, mods, reloc, i, st, size) == Step(after, Err(res.error))
    ensures res.Ok? ==> ModulesSpec(m, mods, reloc, i, st, size) == ModulesSpec(m, mods, reloc, i + 1, after, Wrap32(size + res.value))
  {
  }

  /** One turn of the second loop with the cursor at the end of the file:
      a failing module ends the loop with its error; otherwise the loop goes
      on from the end of the file with the module's padding added. */
  lemma {:induction false} ModulesTurn(m: Machine, mods: seq<Module>, reloc: bool, i: nat, st: StreamState, size: u32,
                    after: StreamState, res: Result<nat>)
    requires WellShaped(m) && i < |mods| && Valid(st) && st.pos == |st.data|
    requires Step(after, res) == ModuleStep(m, mods[i], reloc, st)
    ensures res.Err? ==> ModulesSpec(m, mods, reloc, i, st, size) == Step(after, Err(res.error))
    ensures res.Ok? ==> && after.pos == |after.data|
                        && ModulesSpec(m, mods, reloc, i, st, size) == ModulesSpec(m, mods, reloc, i + 1, after, Wrap32(size + res.value))
  {
    ModulesSpecNext(m, mods, reloc, i, st, size, after, res);
    ModuleStepPadding(m, mods[i], reloc, st, after, res);
  }

  /** Once the first i modules follow `st0`, the rest of the second loop
      appends the bytes of every module. */
  lemma {:induction false} ModulesSpecAppends(m: Machine, mods: seq<Module>, reloc: bool, images: seq<Result<seq<byte>>>, i: nat,
                                              st0: StreamState, st: StreamState)
    requires WellShaped(m) && i <= |mods| && Valid(st0) && Valid(st)
    requires |images| == |mods| && forall k :: 0 <= k < |mods| ==> images[k] == ModuleImage(m, mods[k], reloc)
    requires Join(images, i).Ok?
    requires st == StreamState(st0.data + Join(images, i).value, |st.data|, st0.capacity)
    ensures forall size :: AppendsAs(st0, ModulesSpec(m, mods, reloc, i, st, size), Join(images, |images|))
    decreases |mods| - i
  {
    forall size: u32
      ensures AppendsAs(st0, ModulesSpec(m, mods, reloc, i, st, size), Join(images, |images|))
    {
      if i < |mods| {
        var p := ModuleStep(m, mods[i], reloc, st);
        ModuleStepAppends(m, mods[i], reloc, st);
        if p.res.Err? {
          JoinFails<nat, u32>(images, i, st0, p);
        } else {
          JoinAppends(images, i, st0, p);
          ModulesSpecAppends(m, mods, reloc, images, i + 1, st0, p.st);
        }
      }
    }
  }

  /** When the second loop gets to the end, it returns the file size it
      was started with grown by the padding of every module, modulo 2^32
      (the running value stays that modulo 2^32 at every turn). */
  lemma {:induction false} ModulesSpecSize(m: Machine, mods: seq<Module>, reloc: bool, i: nat, st: StreamState,
                                           fileSize: int, size: u32)
    requires WellShaped(m) && i <= |mods| && Valid(st) && st.pos == |st.data|
    requires size == Wrap32(fileSize + SumPadding(mods, reloc, i))
    ensures ModulesSpec(m, mods, reloc, i, st, size).res.Ok? ==>
            ModulesSpec(m, mods, reloc, i, st, size).res.value == Wrap32(fileSize + SumPadding(mods, reloc, |mods|))
    decreases |mods| - i
  {
    if i < |mods| {
      var p := ModuleStep(m, mods[i], reloc, st);
      ModulesTurn(m, mods, reloc, i, st, size, p.st, p.res);
      ModuleStepPadding(m, mods[i], reloc, st, p.st, p.res);
      if p.res.Ok? {
        PaddingStep(mods, reloc, i, fileSize, size, p.res.value);
        ModulesSpecSize(m, mods, reloc, i + 1, p.st, fileSize, Wrap32(size + p.res.value));
      }
    }
  }

  /** The second loop of simple_write_firmware appends the bytes of every
      module, in order, and when it gets to the end returns the file size it
      started from grown by every module's padding (uint32_t). */
  lemma ModulesSpecWrites(m: Machine, mods: seq<Module>, reloc: bool, st: StreamState, fileSize: u32, r: Step<u32>)
    requires WellShaped(m) && Valid(st) && st.pos == |st.data|
    requires r == ModulesSpec(m, mods, reloc, 0, st, fileSize)
    ensures AppendsAs(st, r, ModulesImage(m, mods, reloc))
    ensures r.res.Ok? ==> r.res.value == Wrap32(fileSize + SumPadding(mods, reloc, |mods|))
  {
    assert st.data + [] == st.data;
    ModulesSpecAppends(m, mods, reloc, ModuleImages(m, mods, reloc), 0, st, st);
    ModulesSpecSize(m, mods, reloc, 0, st, fileSize, fileSize);
  }

  /** The final firmware header: the provisional size plus every module's
      padding (uint32_t arithmetic), the module count and the ABI version. */
  function FinalHeader(est: seq<Module>, reloc: bool): FirmwareHeader {
    FirmwareHeader(Wrap32(SumFwSize(est) + SumPadding(est, reloc, |est|)), Wrap32(|est|), FW_ABI)
  }

  /** The header simple_write_firmware ends with: the provisional file size
      taken modulo 2^32 and then grown by the padding modulo 2^32 is the
      final header's file size. */
  lemma FinalHeaderFromSizes(est: seq<Module>, reloc: bool, fileSize: u32, total: u32)
    requires fileSize == Wrap32(SumFwSize(est))
    requires total == Wrap32(fileSize + SumPadding(est, reloc, |est|))
    ensures FirmwareHeader(total, Wrap32(|est|), FW_ABI) == FinalHeader(est, reloc)
  {
    WrapAdd(SumFwSize(est), SumPadding(est, reloc, |est|));
  }

  // ---------------------------------------------------------------------
  // The file size in the header

  /** The ELF reader's figures for a module agree with its sections: fw_size
      starts as the text and data size, which is the size of the eligible
      sections, and the section count less the bss count is the number of
      eligible sections. */
  predicate Consistent(mod: Module) {
    && mod.fwSize == mod.textSize + mod.dataSize
    && mod.textSize + mod.dataSize == EligibleSize(mod.sections)
    && mod.numSections - mod.numBss == EligibleCount(mod.sections)
  }

  /** With the corrected estimate, a module's estimated fw_size plus its
      padding is exactly the number of bytes it occupies in the image. */
  lemma EstimateMatchesModule(m: Machine, mod: Module)
    requires WellFormed(m) && Consistent(mod) && ModuleBytes(m, Estimated(mod)).Ok?
    ensures Estimated(mod).fwSize + TotalPadding(mod.sections) == |ModuleBytes(m, Estimated(mod)).value|
  {
    BlocksLength(m, Estimated(mod), mod.sections);
  }

  /** Summing the first n modules adds the n-th to the first n - 1. */
  lemma SumFwSizePrefix(mods: seq<Module>, n: nat)
    requires 0 < n <= |mods|
    ensures SumFwSize(mods[..n]) == SumFwSize(mods[..n - 1]) + mods[n - 1].fwSize
  {
    assert mods[..n][..n - 1] == mods[..n - 1];
  }

  /** When each module's bytes are as long as its fw_size and padding, the
      first n of them together are as long as the first n fw_size fields and
      paddings. */
  lemma {:induction false} JoinedSizes(est: seq<Module>, images: seq<Result<seq<byte>>>, n: nat)
    requires n <= |est| == |images| && Join(images, n).Ok?
    requires forall k :: 0 <= k < |est| && images[k].Ok? ==> |images[k].value| == est[k].fwSize + ModulePadding(est[k], false)
    ensures SumFwSize(est[..n]) + SumPadding(est, false, n) == |Join(images, n).value|
  {
    if n > 0 {
      JoinLast(images, n);
      JoinedSizes(est, images, n - 1);
      SumFwSizePrefix(est, n);
    }
  }

  lemma EstimatesMatchImage(m: Machine, mods: seq<Module>, n: nat)
    requires WellFormed(m) && n <= |mods| && forall i :: 0 <= i < |mods| ==> Consistent(mods[i])
    requires Join(ModuleImages(m, EstimateAll(mods), false), n).Ok?
    ensures SumFwSize(EstimateAll(mods)[..n]) + SumPadding(EstimateAll(mods), false, n)
         == |Join(ModuleImages(m, EstimateAll(mods), false), n).value|
  {
    var est := EstimateAll(mods);
    var images := ModuleImages(m, est, false);
    forall k | 0 <= k < |est| && images[k].Ok?
      ensures |images[k].value| == est[k].fwSize + ModulePadding(est[k], false)
    {
      EstimateMatchesModule(m, mods[k]);
    }
    JoinedSizes(est, images, n);
  }

  /** The final header's file size is a total of the modules' fw_size and
      padding taken modulo 2^32. */
  lemma FinalSizeIs(est: seq<Module>, reloc: bool, total: nat)
    requires SumFwSize(est) + SumPadding(est, reloc, |est|) == total
    ensures FinalHeader(est, reloc).fileSize == Wrap32(total)
  {
  }

  /** The headline property of the image: when the modules' figures agree
      with their sections, the final header's file size is the size of the
      packed modules that follow it (modulo 2^32). */
  lemma FileSizeMatchesImage(m: Machine, mods: seq<Module>)
    requires WellFormed(m) && forall i :: 0 <= i < |mods| ==> Consistent(mods[i])
    requires ModulesImage(m, EstimateAll(mods), false).Ok?
    ensures FinalHeader(EstimateAll(mods), false).fileSize == Wrap32(|ModulesImage(m, EstimateAll(mods), false).value|)
  {
    var est := EstimateAll(mods);
    EstimatesMatchImage(m, mods, |est|);
    assert est[..|est|] == est;
    FinalSizeIs(est, false, |ModulesImage(m, est, false).value|);
  }

  /** The firmware file as a whole: when the modules' figures agree with their
      sections, the header at the front of the file decodes to the size of
      everything after it, the module count and the ABI version. */
  lemma FirmwareFileHeader(m: Machine, mods: seq<Module>, est: seq<Module>, data: seq<byte>)
    requires WellFormed(m) && forall i :: 0 <= i < |mods| ==> Consistent(mods[i])
    requires est == EstimateAll(mods) && ModulesImage(m, est, false).Ok?
    requires data == EncodeFirmwareHeader(FinalHeader(est, false)) + ModulesImage(m, est, false).value
    ensures DecodeFirmwareHeader(data[..FW_HDR_SIZE])
            == Some(FirmwareHeader(Wrap32(|data| - FW_HDR_SIZE), Wrap32(|est|), FW_ABI))
  {
    var hdr := FinalHeader(est, false);
    assert data[..FW_HDR_SIZE] == EncodeFirmwareHeader(hdr);
    FirmwareHeaderRoundTrip(hdr);
    FileSizeMatchesImage(m, mods);
  }

  /** For one relocatable module, the final header's file size is the
      estimated fw_size, while the image holds a module header, a block
      header and the whole ELF file. */
  lemma RelocModuleSizes(m: Machine, mod: Module)
    requires WellShaped(m) && mod.fileSize <= |mod.file|
    ensures FinalHeader(EstimateAll([mod]), true).fileSize == Wrap32(Estimated(mod).fwSize)
    ensures ModulesImage(m, EstimateAll([mod]), true).Ok?
    ensures |ModulesImage(m, EstimateAll([mod]), true).value| == MOD_HDR_SIZE + BLK_HDR_SIZE + mod.fileSize
  {
    var est := EstimateAll([mod]);
    var e := Estimated(mod);
    assert est == [e];
    assert SumFwSize(est) == e.fwSize by {
      assert est[..0] == [];
    }
    assert SumPadding(est, true, 1) == 0;
    var images := ModuleImages(m, est, true);
    assert images == [RelocBytes(e)] by {
      assert est[..0] == [];
    }
    assert Join(images, 1) == Concat(Join(images, 0), images[0]);
  }

  /** Relocatable mode does not keep the file size right: the estimate
      counts the module's text and data and one block header per non-bss
      section, but simple_write_module_reloc writes a single block holding
      the whole ELF file. A module of any 100 bytes with no sections, whose
      figures agree with its sections, gets a header file size of 12 while
      124 bytes follow the header. */
  lemma RelocHeaderDisagrees(file: seq<byte>)
    requires |file| == 100
    ensures var mod := Module(file, [], 0, 0, 0, 0, 100, 0, 0, 0);
            var est := EstimateAll([mod]);
            && Consistent(mod)
            && FinalHeader(est, true).fileSize == 12
            && ModulesImage(MACHINE_BYT, est, true).Ok?
            && |ModulesImage(MACHINE_BYT, est, true).value| == 124
  {
    var mod := Module(file, [], 0, 0, 0, 0, 100, 0, 0, 0);
    assert Consistent(mod) by {
      assert EligibleSize([]) == 0 && EligibleCount([]) == 0;
    }
    RelocModuleSizes(MACHINE_BYT, mod);
  }
}

/** What the ELF reader hands to the packer: each module's file contents, its
    section headers and the figures it derived from them. Reading the ELF file
    is not part of this model; these values are inputs. */
module ElfInput {
  import opened Bytes
  import opened Results

  // Section header flags and types of the ELF specification (System V ABI).
  const SHF_WRITE: bv32 := 0x1
  const SHF_ALLOC: bv32 := 0x2
  const SHF_EXECINSTR: bv32 := 0x4
  const SHT_PROGBITS: u32 := 1
  const SHT_NOBITS: u32 := 8

  /** Elf32_Shdr, reduced to the fields the packer reads. */
  datatype Section = Section(vaddr: u32, size: u32, off: u32, shType: u32, flags: bv32)

  /** struct module, reduced to what the packer reads and writes.
      `file` is the ELF file behind module->fd; `sections` has module->hdr.shnum
      entries; an index of 0 in fwReadyIndex or logsIndex means the module has
      no such section. */
  datatype Module = Module(
    file: seq<byte>,
    sections: seq<Section>,
    numSections: nat,
    numBss: nat,
    textSize: nat,
    dataSize: nat,
    fileSize: nat,
    fwSize: int,
    fwReadyIndex: nat,
    logsIndex: nat)

  /** simple_write_module packs a section only when it is writable, allocated
      or executable, and never a section without file contents (bss). */
  predicate Eligible(s: Section) {
    s.flags & (SHF_WRITE | SHF_ALLOC | SHF_EXECINSTR) != 0 && s.shType != SHT_NOBITS
  }

  /** Whether fseek to `off` and fread of `n` bytes get all `n` bytes. A seek
      past the end of a regular file succeeds, so a read of nothing succeeds
      at any offset. */
  predicate InFile(file: seq<byte>, off: nat, n: nat) {
    n == 0 || off + n <= |file|
  }

  /** The `n` bytes of the file from `off` on. */
  function Contents(file: seq<byte>, off: nat, n: nat): (c: seq<byte>)
    requires InFile(file, off, n)
    ensures |c| == n && forall i :: 0 <= i < n ==> c[i] == file[off + i]
  {
    if n == 0 then [] else file[off..off + n]
  }

  /** fseek to `off`, then fread of `n` bytes: anything short of `n` bytes is a
      failed read. */
  function ReadAt(file: seq<byte>, off: nat, n: nat): (r: Option<seq<byte>>)
    ensures r.Some? <==> InFile(file, off, n)
    ensures r.Some? ==> r.value == Contents(file, off, n)
  {
    if InFile(file, off, n) then Some(Contents(file, off, n)) else None
  }
}

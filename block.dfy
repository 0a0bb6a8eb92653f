/** The block packer (write_block): one section becomes one block header and
    its payload padded to a multiple of four bytes. */
module BlockPacker {
  import opened Bytes
  import opened Results
  import opened Stream
  import opened FileFormat
  import opened ElfInput
  import opened Zones

  /** The bytes write_block adds so that the block size is a multiple of 4. */
  function Padding(size: u32): (p: nat)
    ensures p < 4 && (size + p) % 4 == 0
    ensures size % 4 == 0 ==> p == 0
  {
    if size % 4 != 0 then 4 - size % 4 else 0
  }

  /** block.size: the section size plus its padding, stored in a uint32_t. */
  function PaddedSize(size: u32): u32 {
    Wrap32(size + Padding(size))
  }

  predicate Aligned(k: int) {
    k % 4 == 0
  }

  /** Below the largest zone end the padded size does not wrap, and it is the
      smallest multiple of 4 that holds the section. */
  lemma PaddedSizeIsLeastMultiple(size: u32)
    requires size <= MAX_ZONE_END
    ensures PaddedSize(size) == size + Padding(size)
    ensures Aligned(PaddedSize(size)) && size <= PaddedSize(size)
    ensures forall k :: Aligned(k) && k >= size ==> k >= PaddedSize(size)
  {
  }

  /** A section that a zone of a well-formed table contains is small enough
      for its padded size not to wrap. */
  lemma ContainedSectionFits(m: Machine, s: Section)
    requires WellFormed(m) && Classify(m, s) != BLK_TYPE_INVALID
    ensures s.size <= MAX_ZONE_END && PaddedSize(s.size) == s.size + Padding(s.size)
  {
    var t := Classify(m, s);
    assert m.zones[t].base + m.zones[t].size <= MAX_ZONE_END;
    PaddedSizeIsLeastMultiple(s.size);
  }

  /** The block header for a section in zone `t`: the zone type, the padded
      size, and the section's address moved from the zone's base to its host
      offset (uint32_t arithmetic). */
  function BlockHeaderFor(m: Machine, s: Section, t: nat): (h: BlockHeader)
    requires WellShaped(m) && t < BLK_TYPE_NUM
    ensures h.blkType == t && Aligned(h.size)
    ensures s.size <= MAX_ZONE_END ==> s.size <= h.size < s.size + 4
  {
    var z := m.zones[t];
    BlockHeader(t, PaddedSize(s.size), Wrap32(s.vaddr - z.base + z.hostOffset))
  }

  /** The payload buffer of write_block: the section's bytes, zero-filled up to
      the padded size.
      Deviation from the source: file_simple.c allocates only section->size
      bytes (line 113) yet writes block.size bytes from that buffer (line 131),
      reading past its end whenever the size is not a multiple of 4; see
      AsWrittenBuffer. The model writes zeros as the padding. */
  function PaddedBuffer(payload: seq<byte>, size: u32): (b: seq<byte>)
    requires |payload| == size
    ensures |b| == size + Padding(size) && PaddedSize(size) <= |b|
    ensures b[..size] == payload && forall i :: size <= i < |b| ==> b[i] == 0
  {
    payload + Zeros(Padding(size))
  }

  /** The buffer the source allocates and reads the section into:
      calloc(1, section->size). */
  function AsWrittenBuffer(payload: seq<byte>, size: u32): (b: seq<byte>)
    requires |payload| == size
    ensures |b| == size && b == PaddedBuffer(payload, size)[..size]
  {
    payload
  }

  /** The fwrite of line 131 asks for more bytes than that buffer holds: it
      reads Padding(size) bytes past the allocation. */
  lemma AsWrittenWriteOverrunsBuffer(payload: seq<byte>, size: u32)
    requires |payload| == size && size % 4 != 0 && size <= MAX_ZONE_END
    ensures PaddedSize(size) > |AsWrittenBuffer(payload, size)|
    ensures PaddedSize(size) - |AsWrittenBuffer(payload, size)| == Padding(size)
  {
  }

  /** The bytes write_block emits for a section when nothing fails on the
      output side: the block header, the section's bytes from the ELF file and
      zero padding. Fails when no zone contains the section or the file is too
      short. */
  function BlockBytes(m: Machine, mod: Module, s: Section): (r: Result<seq<byte>>)
    requires WellShaped(m)
    ensures r.Ok? <==> Classify(m, s) != BLK_TYPE_INVALID && InFile(mod.file, s.off, s.size)
    ensures Classify(m, s) == BLK_TYPE_INVALID ==> r == Err(InvalidBlockAddress(s.vaddr, s.size))
  {
    var t := Classify(m, s);
    if t == BLK_TYPE_INVALID then Err(InvalidBlockAddress(s.vaddr, s.size))
    else
      match ReadAt(mod.file, s.off, s.size)
      case None => Err(ReadFailed)
      case Some(payload) =>
        Ok(EncodeBlockHeader(BlockHeaderFor(m, s, t)) + PaddedBuffer(payload, s.size)[..PaddedSize(s.size)])
  }

  /** write_block step by step: classify (nothing is written when that fails),
      write the header, read the section, write the padded payload. Returns the
      padding. */
  function BlockSpec(m: Machine, mod: Module, s: Section, st: StreamState): (r: Step<nat>)
    requires WellShaped(m) && Valid(st)
    ensures Valid(r.st) && r.st.capacity == st.capacity && |st.data| <= |r.st.data|
    ensures r.res.Ok? ==> r.res.value == Padding(s.size)
    ensures r.res.Err? && r.res.error.InvalidBlockAddress? ==> r.res.error == InvalidBlockAddress(s.vaddr, s.size) && r.st == st
  {
    var t := Classify(m, s);
    if t == BLK_TYPE_INVALID then Step(st, Err(InvalidBlockAddress(s.vaddr, s.size)))
    else
      var hdr := EncodeBlockHeader(BlockHeaderFor(m, s, t));
      if !Fits(st, |hdr|) then Step(st, Err(WriteFailed))
      else
        var st1 := Put(st, hdr);
        match ReadAt(mod.file, s.off, s.size)
        case None => Step(st1, Err(ReadFailed))
        case Some(payload) =>
          var out := PaddedBuffer(payload, s.size)[..PaddedSize(s.size)];
          if !Fits(st1, |out|) then Step(st1, Err(WriteFailed))
          else Step(Put(st1, out), Ok(Padding(s.size)))
  }

  /** A section outside every zone is rejected before anything is written. */
  lemma InvalidSectionWritesNothing(m: Machine, mod: Module, s: Section, st: StreamState)
    requires WellShaped(m) && Valid(st)
    requires forall j :: 0 <= j < |m.zones| ==> !Contains(m.zones[j], s)
    ensures BlockSpec(m, mod, s, st) == Step(st, Err(InvalidBlockAddress(s.vaddr, s.size)))
  {
  }

  /** What a packed block looks like: a header naming the zone, the padded
      size and the host-side offset, then the section's bytes, then zeros. */
  lemma BlockLayout(m: Machine, mod: Module, s: Section)
    requires WellFormed(m) && BlockBytes(m, mod, s).Ok?
    ensures var t := Classify(m, s);
            var b := BlockBytes(m, mod, s).value;
            var z := m.zones[t];
            && Contains(z, s)
            && |b| == BLK_HDR_SIZE + s.size + Padding(s.size)
            && DecodeBlockHeader(b[..BLK_HDR_SIZE]) ==
                 BlockHeader(t, s.size + Padding(s.size), Wrap32(s.vaddr - z.base + z.hostOffset))
            && b[BLK_HDR_SIZE..BLK_HDR_SIZE + s.size] == Contents(mod.file, s.off, s.size)
            && forall i :: BLK_HDR_SIZE + s.size <= i < |b| ==> b[i] == 0
  {
    var t := Classify(m, s);
    ContainedSectionFits(m, s);
    var hdr := BlockHeaderFor(m, s, t);
    var payload := Contents(mod.file, s.off, s.size);
    var buf := PaddedBuffer(payload, s.size);
    assert buf[..PaddedSize(s.size)] == buf;
    var b := BlockBytes(m, mod, s).value;
    assert b == EncodeBlockHeader(hdr) + buf;
    assert b[..BLK_HDR_SIZE] == EncodeBlockHeader(hdr);
    BlockHeaderRoundTrip(hdr);
    assert b[BLK_HDR_SIZE..BLK_HDR_SIZE + s.size] == buf[..s.size];
    forall i | BLK_HDR_SIZE + s.size <= i < |b|
      ensures b[i] == 0
    {
      assert b[i] == buf[i - BLK_HDR_SIZE];
    }
  }

  /** On a stream positioned at its end, write_block appends exactly the
      block's bytes and returns its padding; it succeeds precisely when the
      section is classified, its bytes can be read, and the block fits. */
  lemma BlockSpecAppends(m: Machine, mod: Module, s: Section, st: StreamState)
    requires WellShaped(m) && Valid(st) && st.pos == |st.data|
    ensures AppendsAs(st, BlockSpec(m, mod, s, st), BlockBytes(m, mod, s))
    ensures BlockSpec(m, mod, s, st).res.Ok? ==> BlockSpec(m, mod, s, st).res.value == Padding(s.size)
  {
    var t := Classify(m, s);
    if t != BLK_TYPE_INVALID {
      var hdr := EncodeBlockHeader(BlockHeaderFor(m, s, t));
      var w := PutStep(st, hdr, ());
      PutStepAppends(st, hdr, ());
      var st1 := Put(st, hdr);
      match ReadAt(mod.file, s.off, s.size)
      case None =>
        var fail: Step<nat> := Step(st1, Err(ReadFailed));
        AppendsThen(st, w, Ok(hdr), fail, Err(ReadFailed));
        assert BlockSpec(m, mod, s, st) == Then(w, fail);
      case Some(payload) =>
        var out := PaddedBuffer(payload, s.size)[..PaddedSize(s.size)];
        var w2 := PutStep(st1, out, Padding(s.size));
        if Fits(st, |hdr|) {
          PutStepAppends(st1, out, Padding(s.size));
        }
        AppendsThen(st, w, Ok(hdr), w2, Ok(out));
        assert BlockSpec(m, mod, s, st) == Then(w, w2);
    }
  }

  /** A byt section 16 bytes into IRAM: 100 bytes need no padding, and the
      block lands at host offset 0xC0010. */
  lemma BytScenario()
    ensures var s := Section(0xff2c0010, 100, 0, SHT_PROGBITS, SHF_EXECINSTR);
            && Classify(MACHINE_BYT, s) == BLK_TYPE_IRAM
            && BlockHeaderFor(MACHINE_BYT, s, BLK_TYPE_IRAM) == BlockHeader(BLK_TYPE_IRAM, 100, 0x000C0010)
  {
    var s := Section(0xff2c0010, 100, 0, SHT_PROGBITS, SHF_EXECINSTR);
    assert !Contains(MACHINE_BYT.zones[0], s) && Contains(MACHINE_BYT.zones[1], s);
    assert FirstZoneFrom(MACHINE_BYT.zones, 0, s) == FirstZoneFrom(MACHINE_BYT.zones, 1, s);
  }

  /** The same section grown to 0x14000 bytes runs 16 bytes past the 80 KiB
      (0x14000-byte) IRAM zone, and write_block rejects it without writing;
      at 0x13000 bytes it still fits. */
  lemma BytOverflowScenario(mod: Module, st: StreamState)
    requires Valid(st)
    ensures var s := Section(0xff2c0010, 0x14000, 0, SHT_PROGBITS, SHF_EXECINSTR);
            BlockSpec(MACHINE_BYT, mod, s, st) == Step(st, Err(InvalidBlockAddress(0xff2c0010, 0x14000)))
    ensures Classify(MACHINE_BYT, Section(0xff2c0010, 0x13000, 0, SHT_PROGBITS, SHF_EXECINSTR)) == BLK_TYPE_IRAM
  {
    var s := Section(0xff2c0010, 0x14000, 0, SHT_PROGBITS, SHF_EXECINSTR);
    var t := MACHINE_BYT.zones;
    forall j | 0 <= j < |t|
      ensures !Contains(t[j], s)
    {
      assert t[j] == UNSET_ZONE || t[j] == BYT_IRAM || t[j] == BYT_DRAM;
    }
    var s2 := Section(0xff2c0010, 0x13000, 0, SHT_PROGBITS, SHF_EXECINSTR);
    assert !Contains(t[0], s2) && Contains(t[1], s2);
    assert FirstZoneFrom(t, 0, s2) == FirstZoneFrom(t, 1, s2);
  }
}

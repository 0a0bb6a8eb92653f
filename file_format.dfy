/** The on-disk records of the firmware image and of the log dictionary.

    Their C declarations live in file_format.h, which is not part of this
    model. Each record is written with one fwrite of the packed struct, so on
    the little-endian hosts the tool runs on it is a fixed signature (where
    there is one) followed by little-endian 32-bit words. The constants and the
    field order below are those of that header as this model assumes them. */
module FileFormat {
  import opened Bytes
  import opened Results

  // enum snd_sof_fw_blk_type: the memory zone a block is loaded into
  const BLK_TYPE_INVALID: int := -1
  const BLK_TYPE_START: nat := 0
  const BLK_TYPE_IRAM: nat := 1
  const BLK_TYPE_DRAM: nat := 2
  const BLK_TYPE_NUM: nat := 15

  // enum snd_sof_fw_mod_type
  const FW_BASE: u32 := 0

  const FW_SIG: seq<byte> := [0x52, 0x65, 0x65, 0x66]    // "Reef"
  const LOGS_SIG: seq<byte> := [0x4c, 0x6f, 0x67, 0x73]  // "Logs"
  const FW_ABI: u32 := 1

  const BLK_HDR_SIZE: nat := 12   // sizeof(struct snd_sof_blk_hdr)
  const MOD_HDR_SIZE: nat := 12   // sizeof(struct snd_sof_mod_hdr)
  const FW_HDR_SIZE: nat := 16    // sizeof(struct snd_sof_fw_header)

  // struct sof_ipc_fw_ready and the struct sof_ipc_fw_version inside it
  const FW_READY_SIZE: nat := 66
  const FW_VERSION_OFFSET: nat := 24
  const FW_VERSION_SIZE: nat := 34

  const LOGS_HDR_SIZE: nat := 16 + FW_VERSION_SIZE   // sizeof(struct snd_sof_logs_header)

  /** struct snd_sof_blk_hdr */
  datatype BlockHeader = BlockHeader(blkType: u32, size: u32, offset: u32)

  /** struct snd_sof_mod_hdr */
  datatype ModuleHeader = ModuleHeader(modType: u32, size: u32, numBlocks: u32)

  /** struct snd_sof_fw_header; the signature is always FW_SIG. */
  datatype FirmwareHeader = FirmwareHeader(fileSize: u32, numModules: u32, abi: u32)

  /** struct snd_sof_logs_header; the signature is always LOGS_SIG and
      `version` is the raw version record. */
  datatype LogsHeader = LogsHeader(baseAddress: u32, dataLength: u32, dataOffset: u32, version: seq<byte>)

  function EncodeBlockHeader(h: BlockHeader): (b: seq<byte>)
    ensures |b| == BLK_HDR_SIZE
  {
    LE32(h.blkType) + LE32(h.size) + LE32(h.offset)
  }

  function DecodeBlockHeader(b: seq<byte>): BlockHeader
    requires |b| == BLK_HDR_SIZE
  {
    BlockHeader(ReadLE32(b[0..4]), ReadLE32(b[4..8]), ReadLE32(b[8..12]))
  }

  lemma BlockHeaderRoundTrip(h: BlockHeader)
    ensures DecodeBlockHeader(EncodeBlockHeader(h)) == h
  {
    var b := EncodeBlockHeader(h);
    assert b[0..4] == LE32(h.blkType) && b[4..8] == LE32(h.size) && b[8..12] == LE32(h.offset);
    LE32RoundTrip(h.blkType);
    LE32RoundTrip(h.size);
    LE32RoundTrip(h.offset);
  }

  function EncodeModuleHeader(h: ModuleHeader): (b: seq<byte>)
    ensures |b| == MOD_HDR_SIZE
  {
    LE32(h.modType) + LE32(h.size) + LE32(h.numBlocks)
  }

  function DecodeModuleHeader(b: seq<byte>): ModuleHeader
    requires |b| == MOD_HDR_SIZE
  {
    ModuleHeader(ReadLE32(b[0..4]), ReadLE32(b[4..8]), ReadLE32(b[8..12]))
  }

  lemma ModuleHeaderRoundTrip(h: ModuleHeader)
    ensures DecodeModuleHeader(EncodeModuleHeader(h)) == h
  {
    var b := EncodeModuleHeader(h);
    assert b[0..4] == LE32(h.modType) && b[4..8] == LE32(h.size) && b[8..12] == LE32(h.numBlocks);
    LE32RoundTrip(h.modType);
    LE32RoundTrip(h.size);
    LE32RoundTrip(h.numBlocks);
  }

  function EncodeFirmwareHeader(h: FirmwareHeader): (b: seq<byte>)
    ensures |b| == FW_HDR_SIZE
  {
    FW_SIG + LE32(h.fileSize) + LE32(h.numModules) + LE32(h.abi)
  }

  /** A reader of the image checks the signature before trusting the rest. */
  function DecodeFirmwareHeader(b: seq<byte>): Option<FirmwareHeader>
    requires |b| == FW_HDR_SIZE
  {
    if b[0..4] != FW_SIG then None
    else Some(FirmwareHeader(ReadLE32(b[4..8]), ReadLE32(b[8..12]), ReadLE32(b[12..16])))
  }

  lemma FirmwareHeaderRoundTrip(h: FirmwareHeader)
    ensures DecodeFirmwareHeader(EncodeFirmwareHeader(h)) == Some(h)
  {
    var b := EncodeFirmwareHeader(h);
    assert b[0..4] == FW_SIG && b[4..8] == LE32(h.fileSize);
    assert b[8..12] == LE32(h.numModules) && b[12..16] == LE32(h.abi);
    LE32RoundTrip(h.fileSize);
    LE32RoundTrip(h.numModules);
    LE32RoundTrip(h.abi);
  }

  function EncodeLogsHeader(h: LogsHeader): (b: seq<byte>)
    requires |h.version| == FW_VERSION_SIZE
    ensures |b| == LOGS_HDR_SIZE
  {
    LOGS_SIG + LE32(h.baseAddress) + LE32(h.dataLength) + LE32(h.dataOffset) + h.version
  }

  function DecodeLogsHeader(b: seq<byte>): Option<LogsHeader>
    requires |b| == LOGS_HDR_SIZE
  {
    if b[0..4] != LOGS_SIG then None
    else Some(LogsHeader(ReadLE32(b[4..8]), ReadLE32(b[8..12]), ReadLE32(b[12..16]), b[16..]))
  }

  lemma LogsHeaderRoundTrip(h: LogsHeader)
    requires |h.version| == FW_VERSION_SIZE
    ensures DecodeLogsHeader(EncodeLogsHeader(h)) == Some(h)
  {
    var b := EncodeLogsHeader(h);
    assert b[0..4] == LOGS_SIG && b[4..8] == LE32(h.baseAddress);
    assert b[8..12] == LE32(h.dataLength) && b[12..16] == LE32(h.dataOffset);
    assert b[16..] == h.version;
    LE32RoundTrip(h.baseAddress);
    LE32RoundTrip(h.dataLength);
    LE32RoundTrip(h.dataOffset);
  }
}

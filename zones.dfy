/** The per-machine memory zone tables and the zone classifier
    (get_mem_zone_type). */
module Zones {
  import opened Bytes
  import opened FileFormat
  import opened ElfInput

  /** One entry of adsp->mem_zones: where the zone sits in the DSP's address
      space, how large it is, and where it starts in the host's view. */
  datatype Zone = Zone(base: u32, size: u32, hostOffset: u32)

  datatype MachineId = Baytrail | Cherrytrail | Braswell | Haswell | Broadwell | Hikey

  /** struct adsp: a target machine and its zone table indexed by block type.
      The write_firmware callback is simple_write_firmware for every machine. */
  datatype Machine = Machine(name: string, zones: seq<Zone>, id: MachineId)

  /** mem_zones is an array of BLK_TYPE_NUM entries. */
  predicate WellShaped(m: Machine) {
    |m.zones| == BLK_TYPE_NUM
  }

  /** The largest zone end for which neither the zone's end address nor the
      padded size of a section inside it overflows uint32_t. */
  const MAX_ZONE_END: int := 0xffff_fffc

  ghost predicate WellFormed(m: Machine) {
    WellShaped(m) && forall j :: 0 <= j < |m.zones| ==> m.zones[j].base + m.zones[j].size <= MAX_ZONE_END
  }

  /** The section lies entirely inside the zone: it starts inside it and ends
      no later than the zone does. */
  predicate Contains(z: Zone, s: Section) {
    && z.base <= s.vaddr
    && s.vaddr < z.base + z.size
    && s.vaddr + s.size <= z.base + z.size
  }

  /** The three tests of get_mem_zone_type as written, where `end` and
      `base + size` are uint32_t sums and so wrap around. */
  predicate FitsAsWritten(z: Zone, s: Section) {
    var end := Wrap32(s.vaddr + s.size);
    var limit := Wrap32(z.base + z.size);
    !(s.vaddr < z.base) && !(s.vaddr >= limit) && !(end > limit)
  }

  /** The first zone, from index `i` on, that contains the section. */
  function FirstZoneFrom(zones: seq<Zone>, i: nat, s: Section): (r: int)
    requires i <= |zones|
    ensures r == BLK_TYPE_INVALID || i <= r < |zones|
    ensures r == BLK_TYPE_INVALID <==> forall j :: i <= j < |zones| ==> !Contains(zones[j], s)
    ensures r != BLK_TYPE_INVALID ==> Contains(zones[r], s) && forall j :: i <= j < r ==> !Contains(zones[j], s)
    decreases |zones| - i
  {
    if i == |zones| then BLK_TYPE_INVALID
    else if Contains(zones[i], s) then i
    else FirstZoneFrom(zones, i + 1, s)
  }

  /** The loop of get_mem_zone_type from index `i` on, as written: the first
      zone that passes the uint32_t tests. */
  function FirstZoneAsWrittenFrom(zones: seq<Zone>, i: nat, s: Section): (r: int)
    requires i <= |zones|
    ensures r == BLK_TYPE_INVALID || i <= r < |zones|
    ensures r == BLK_TYPE_INVALID <==> forall j :: i <= j < |zones| ==> !FitsAsWritten(zones[j], s)
    ensures r != BLK_TYPE_INVALID ==> FitsAsWritten(zones[r], s) && forall j :: i <= j < r ==> !FitsAsWritten(zones[j], s)
    decreases |zones| - i
  {
    if i == |zones| then BLK_TYPE_INVALID
    else if FitsAsWritten(zones[i], s) then i
    else FirstZoneAsWrittenFrom(zones, i + 1, s)
  }

  /** The zone type of a section: the first block type, in ascending order,
      whose zone contains it, or BLK_TYPE_INVALID. */
  function Classify(m: Machine, s: Section): (r: int)
    requires WellShaped(m)
    ensures r == BLK_TYPE_INVALID <==> forall j :: 0 <= j < |m.zones| ==> !Contains(m.zones[j], s)
    ensures r != BLK_TYPE_INVALID ==>
              && 0 <= r < BLK_TYPE_NUM && Contains(m.zones[r], s)
              && forall j :: 0 <= j < r ==> !Contains(m.zones[j], s)
  {
    FirstZoneFrom(m.zones, BLK_TYPE_START, s)
  }

  /** get_mem_zone_type exactly as the source computes it, in uint32_t. */
  function ClassifyAsWritten(m: Machine, s: Section): (r: int)
    requires WellShaped(m)
    ensures r == BLK_TYPE_INVALID <==> forall j :: 0 <= j < |m.zones| ==> !FitsAsWritten(m.zones[j], s)
    ensures r != BLK_TYPE_INVALID ==>
              && 0 <= r < BLK_TYPE_NUM && FitsAsWritten(m.zones[r], s)
              && forall j :: 0 <= j < r ==> !FitsAsWritten(m.zones[j], s)
  {
    FirstZoneAsWrittenFrom(m.zones, BLK_TYPE_START, s)
  }

  /** The classification loop of get_mem_zone_type, with the end of the section
      and of the zone computed without overflow. */
  method GetMemZoneType(m: Machine, s: Section) returns (r: int)
    requires WellShaped(m)
    ensures r == Classify(m, s)
  {
    var start: int := s.vaddr;
    var end: int := s.vaddr + s.size;
    var i := BLK_TYPE_START;
    while i < BLK_TYPE_NUM
      invariant BLK_TYPE_START <= i <= BLK_TYPE_NUM
      invariant FirstZoneFrom(m.zones, i, s) == Classify(m, s)
    {
      var base: int := m.zones[i].base;
      var size: int := m.zones[i].size;
      if start < base || start >= base + size || end > base + size {
        i := i + 1;
        continue;
      }
      return i;
    }
    return BLK_TYPE_INVALID;
  }

  /** A zone left unset in a table (size 0) never holds a section. */
  lemma UnsetZoneNeverMatches(z: Zone, s: Section)
    requires z.size == 0
    ensures !Contains(z, s) && !FitsAsWritten(z, s)
  {
  }

  lemma FitsAsWrittenWithoutWrap(z: Zone, s: Section)
    requires z.base + z.size < U32_MOD && s.vaddr + s.size < U32_MOD
    ensures FitsAsWritten(z, s) == Contains(z, s)
  {
  }

  lemma {:induction false} FirstZoneAsWrittenWithoutWrap(zones: seq<Zone>, i: nat, s: Section)
    requires i <= |zones|
    requires forall j :: 0 <= j < |zones| ==> zones[j].base + zones[j].size < U32_MOD
    requires s.vaddr + s.size < U32_MOD
    ensures FirstZoneAsWrittenFrom(zones, i, s) == FirstZoneFrom(zones, i, s)
    decreases |zones| - i
  {
    if i < |zones| {
      FitsAsWrittenWithoutWrap(zones[i], s);
      FirstZoneAsWrittenWithoutWrap(zones, i + 1, s);
    }
  }

  /** As long as neither sum overflows, the source's uint32_t tests classify
      exactly as containment does. */
  lemma ClassifyAsWrittenAgrees(m: Machine, s: Section)
    requires WellFormed(m) && s.vaddr + s.size < U32_MOD
    ensures ClassifyAsWritten(m, s) == Classify(m, s)
  {
    FirstZoneAsWrittenWithoutWrap(m.zones, BLK_TYPE_START, s);
  }

  // Zone layouts of the supported machines.
  const BYT_IRAM: Zone := Zone(0xff2c0000, 80 * 1024, 0x0C0000)
  const BYT_DRAM: Zone := Zone(0xff300000, 160 * 1024, 0x100000)
  const HSW_IRAM: Zone := Zone(0x00000000, 384 * 1024, 0x00080000)
  const HSW_DRAM: Zone := Zone(0x00400000, 512 * 1024, 0x00000000)
  const BDW_IRAM: Zone := Zone(0x00000000, 320 * 1024, 0x000A0000)
  const BDW_DRAM: Zone := Zone(0x00400000, 640 * 1024, 0x00000000)
  const HKY_IRAM: Zone := Zone(0xE8080000, 48 * 1024, 0x00000000)
  const HKY_DRAM: Zone := Zone(0xE8058000, 160 * 1024, 0x00000000)

  const UNSET_ZONE: Zone := Zone(0, 0, 0)

  /** A mem_zones array with only the IRAM and DRAM entries initialised. */
  function ZoneTable(iram: Zone, dram: Zone): (t: seq<Zone>)
    ensures |t| == BLK_TYPE_NUM && t[BLK_TYPE_IRAM] == iram && t[BLK_TYPE_DRAM] == dram
    ensures forall j :: 0 <= j < |t| && j != BLK_TYPE_IRAM && j != BLK_TYPE_DRAM ==> t[j] == UNSET_ZONE
  {
    [UNSET_ZONE, iram, dram] + seq(BLK_TYPE_NUM - 3, _ => UNSET_ZONE)
  }

  const MACHINE_BYT: Machine := Machine("byt", ZoneTable(BYT_IRAM, BYT_DRAM), Baytrail)
  const MACHINE_CHT: Machine := Machine("cht", ZoneTable(BYT_IRAM, BYT_DRAM), Cherrytrail)
  const MACHINE_BSW: Machine := Machine("bsw", ZoneTable(BYT_IRAM, BYT_DRAM), Braswell)
  const MACHINE_HSW: Machine := Machine("hsw", ZoneTable(HSW_IRAM, HSW_DRAM), Haswell)
  const MACHINE_BDW: Machine := Machine("bdw", ZoneTable(BDW_IRAM, BDW_DRAM), Broadwell)
  const MACHINE_HKY: Machine := Machine("hky", ZoneTable(HKY_IRAM, HKY_DRAM), Hikey)

  const SHIPPED_MACHINES: seq<Machine> :=
    [MACHINE_BYT, MACHINE_CHT, MACHINE_BSW, MACHINE_HSW, MACHINE_BDW, MACHINE_HKY]

  /** No address lies in two zones of the table. */
  ghost predicate Disjoint(m: Machine) {
    forall i, j :: 0 <= i < j < |m.zones| ==> ZonesApart(m.zones[i], m.zones[j])
  }

  predicate ZonesApart(a: Zone, b: Zone) {
    a.size == 0 || b.size == 0 || a.base + a.size <= b.base || b.base + b.size <= a.base
  }

  /** With disjoint zones the first match is the only match: the order in which
      the classifier tries the zones does not matter. */
  lemma FirstMatchIsOnlyMatch(m: Machine, s: Section)
    requires WellShaped(m) && Disjoint(m) && Classify(m, s) != BLK_TYPE_INVALID
    ensures forall j :: 0 <= j < |m.zones| && j != Classify(m, s) ==> !Contains(m.zones[j], s)
  {
    var r := Classify(m, s);
    forall j | 0 <= j < |m.zones| && j != r
      ensures !Contains(m.zones[j], s)
    {
      if j < r {
        assert ZonesApart(m.zones[j], m.zones[r]);
      } else {
        assert ZonesApart(m.zones[r], m.zones[j]);
      }
    }
  }

  lemma ZoneTableSound(iram: Zone, dram: Zone)
    requires ZonesApart(iram, dram)
    requires iram.base + iram.size <= MAX_ZONE_END && dram.base + dram.size <= MAX_ZONE_END
    ensures forall i, j :: 0 <= i < j < BLK_TYPE_NUM ==> ZonesApart(ZoneTable(iram, dram)[i], ZoneTable(iram, dram)[j])
    ensures forall j :: 0 <= j < BLK_TYPE_NUM ==> ZoneTable(iram, dram)[j].base + ZoneTable(iram, dram)[j].size <= MAX_ZONE_END
  {
  }

  /** Every shipped table fits in 32 bits and has disjoint IRAM and DRAM (on
      hky the DRAM ends exactly where the IRAM begins). */
  lemma ShippedMachinesSound()
    ensures forall m :: m in SHIPPED_MACHINES ==> WellFormed(m) && Disjoint(m)
  {
    ZoneTableSound(BYT_IRAM, BYT_DRAM);
    ZoneTableSound(HSW_IRAM, HSW_DRAM);
    ZoneTableSound(BDW_IRAM, BDW_DRAM);
    ZoneTableSound(HKY_IRAM, HKY_DRAM);
  }

  /** A section whose end wraps past 2^32: it starts 16 bytes into byt's IRAM
      and is almost 4 GiB long. */
  const OVERSIZED_SECTION: Section := Section(0xff2c0010, 0xffff_fff0, 0, SHT_PROGBITS, SHF_EXECINSTR)

  /** The uint32_t end of the section wraps to 0xff2c0000, below the IRAM
      limit, so the source places it in IRAM, which holds 80 KiB; no zone
      contains it. */
  lemma WrappedEndIsAccepted()
    ensures ClassifyAsWritten(MACHINE_BYT, OVERSIZED_SECTION) == BLK_TYPE_IRAM
    ensures !Contains(BYT_IRAM, OVERSIZED_SECTION)
    ensures Classify(MACHINE_BYT, OVERSIZED_SECTION) == BLK_TYPE_INVALID
  {
    var t := MACHINE_BYT.zones;
    WrapOnce(OVERSIZED_SECTION.vaddr + OVERSIZED_SECTION.size);
    assert !FitsAsWritten(t[0], OVERSIZED_SECTION);
    assert FitsAsWritten(t[1], OVERSIZED_SECTION);
    assert FirstZoneAsWrittenFrom(t, 0, OVERSIZED_SECTION) == FirstZoneAsWrittenFrom(t, 1, OVERSIZED_SECTION);
    forall j | 0 <= j < |t|
      ensures !Contains(t[j], OVERSIZED_SECTION)
    {
      assert t[j] == UNSET_ZONE || t[j] == BYT_IRAM || t[j] == BYT_DRAM;
    }
  }
}

/** The metadata register map: 64 little-endian 32-bit words at addresses
    0x00-0x3F, each read through a per-address field layout.

    Every layout of the source (a whole u32/i32, two 16-bit halves, four bytes,
    or a list of ctypes bitfields) is written here as data: a list of
    (name, bit offset, bit width, signed) fields in declaration order, read by
    one shift-and-mask decoder. A ctypes LittleEndianStructure gives its first
    declared field the lowest bits, so the offsets grow in declaration order. */
module Registers {
  import opened Bytes
  import opened Wrappers

  /** Number of 32-bit metadata registers (registers.py NUM_REGISTERS). */
  const NumRegisters: nat := 64
  const WordBytes: nat := 4
  const WordBits: nat := 32

  /** The value of one 32-bit register. */
  type Word = w: int | 0 <= w < 0x1_0000_0000

  /** A named bit range of a word; `signed` fields are two's complement. */
  datatype Field = Field(name: string, offset: nat, width: nat, signed: bool)

  /** The fields of one 32-bit word, in declaration order. */
  type Layout = seq<Field>

  /** A register class of the source: one or more consecutive words, from
      its first to its last address (the class `RESERVED_0x12_0x13` is first
      0x12, last 0x13; a single register has first == last). The class names
      are kept as comments in RegisterMap. */
  datatype Register = Register(first: nat, last: nat, words: seq<Layout>)

  // ---------------------------------------------------------------------------
  // The layouts (registers.py:8-642)
  // ---------------------------------------------------------------------------

  function WholeWord(name: string, signed: bool): Layout {
    [Field(name, 0, 32, signed)]
  }

  /** TEMP_SENSOR_0x00: two c_int16 halves; the low one is an <8,8> temperature. */
  const TempSensor: Layout := [
    Field("temperature_sensor_0", 0, 16, true),
    Field("_unimplemented", 16, 16, true)
  ]

  /** FW_VERSION_0x16: four c_uint8, patch in the lowest byte. */
  const FwVersion: Layout := [
    Field("ver_patch", 0, 8, false),
    Field("ver_minor", 8, 8, false),
    Field("ver_major", 16, 8, false),
    Field("_reserved", 24, 8, false)
  ]

  /** FOV_LENS_0x17: six unsigned bitfields of widths 6, 6, 4, 6, 5, 5. */
  const FovLens: Layout := [
    Field("lens_index", 0, 6, false),
    Field("assembly_type_generation_index", 6, 6, false),
    Field("lens_material_index", 12, 4, false),
    Field("config_type_index", 16, 6, false),
    Field("metadata_version", 22, 5, false),
    Field("die_type_index", 27, 5, false)
  ]

  /** DECENTRATION_0x18: the centre coordinates are declared as plain 10-bit
      unsigned bitfields and are decoded as such (the docstring's "<10,3> fixed
      point" is not what the declaration says). */
  const Decentration: Layout := [
    Field("centre_x", 0, 10, false),
    Field("centre_y", 10, 10, false),
    Field("column_start", 20, 6, false),
    Field("row_start", 26, 6, false)
  ]

  /** CTS_CTRL_0x1F: enable/disable flags, NUM_FRAMES_TO_AVG and FRAME_RATE_MODE. */
  const CtsCtrl: Layout := [
    Field("EXPOSURE_CTRL_ENABLE_BIT", 0, 1, false),
    Field("BAD_PIXEL_ENABLE_BIT", 1, 1, false),
    Field("_reserved2", 2, 1, false),
    Field("_reserved3", 3, 1, false),
    Field("LINEAR_COMP_ENABLE_BIT", 4, 1, false),
    Field("DX_CENTROID_ENABLE_BIT", 5, 1, false),
    Field("_reserved6", 6, 1, false),
    Field("SHIELDED_COMP_ENABLE_BIT", 7, 1, false),
    Field("NUM_FRAMES_TO_AVG", 8, 3, false),
    Field("_reserved11", 11, 1, false),
    Field("FRAME_RATE_MODE", 12, 4, false),
    Field("_reserved16_23", 16, 8, false),
    Field("ENABLE_CMOS_TEST_PATTERN", 24, 1, false),
    Field("ENABLE_CENTROID_TEST_PATTERN", 25, 1, false),
    Field("_reserved26_28", 26, 3, false),
    Field("DISABLE_I2C_POLL", 29, 1, false),
    Field("_reserved30", 30, 1, false),
    Field("DISABLE_IMG_PROC", 31, 1, false)
  ]

  /** BB_WIDTH_0x20 / BB_HEIGHT_0x21: four 6-bit values each followed by a
      2-bit pad. The last pad has width 2 after a field ending at bit 29, so it
      occupies bits 30-31 whatever its comment says. */
  function BoundingBox(value: string): Layout {
    [
      Field(value + "0", 0, 6, false),
      Field("reserved6_7", 6, 2, false),
      Field(value + "1", 8, 6, false),
      Field("reserved14_15", 14, 2, false),
      Field(value + "2", 16, 6, false),
      Field("reserved", 22, 2, false),
      Field(value + "3", 24, 6, false),
      Field("reserved22_23", 30, 2, false)
    ]
  }

  const BbWidth: Layout := BoundingBox("width")
  const BbHeight: Layout := BoundingBox("height")

  /** THRES_0x22: four c_uint8. */
  const Thres: Layout := [
    Field("thres0", 0, 8, false),
    Field("thres1", 8, 8, false),
    Field("thres2", 16, 8, false),
    Field("thres3", 24, 8, false)
  ]

  /** TEMP_OFFSET_0x23: two c_int16 <8,8> offsets. */
  const TempOffset: Layout := [
    Field("conv_temp_offset", 0, 16, true),
    Field("is_temp_offset", 16, 16, true)
  ]

  /** EXPCTRL_CONFIG_0x28: a 10-bit step and 22 reserved bits. */
  const ExpctrlConfig: Layout := [
    Field("exposure_correction", 0, 10, false),
    Field("_reserved10_31", 10, 22, false)
  ]

  /** SHIELDED_COMP_CONFIG_0x29: a c_int16 <8,8> multiplier and a c_uint16. */
  const ShieldedCompConfig: Layout := [
    Field("shielded_multiplier", 0, 16, true),
    Field("_reserved16_31", 16, 16, false)
  ]

  /** IR_RESOLUTION_0x3C: two c_uint8 and a c_uint16. */
  const IrResolution: Layout := [
    Field("ir_rows", 0, 8, false),
    Field("ir_cols", 8, 8, false),
    Field("_reserved16_31", 16, 16, false)
  ]

  /** CMOS_RESOLUTION_0x3D: two c_uint16. */
  const CmosResolution: Layout := [
    Field("cmos_rows", 0, 16, false),
    Field("cmos_cols", 16, 16, false)
  ]

  /** CMOS_FRAME_CRC_0x3E: two c_uint16. */
  const CmosFrameCrc: Layout := [
    Field("checksum", 0, 16, false),
    Field("error_count", 16, 16, false)
  ]

  /** A one-word register holding a single c_uint32 or c_int32. */
  function Single(address: nat, field: string, signed: bool): Register {
    Register(address, address, [WholeWord(field, signed)])
  }

  /** A one-word register read through `layout`. */
  function Layouts1(address: nat, layout: Layout): Register {
    Register(address, address, [layout])
  }

  /** RegisterMap (registers.py:645-699): the register classes in the order
      they are declared, each with the words it spans, written down in six
      blocks of consecutive addresses. RESERVED_0x1A_0x1E declares the name
      `_reserved0` four times; each declaration is still a word of its own. */
  const RegisterMap: seq<Register> := Block00 + Block08 + Block12 + Block1A + Block24 + Block2C

  /** The register classes at addresses 0x00-0x07. */
  const Block00: seq<Register> := [
    Layouts1(0x00, TempSensor),  // TEMP_SENSOR_0x00
    Single(0x01, "minutes", false),  // LED_LIFETIME_0x01
    Single(0x02, "frame_count", false),  // GLOBAL_FRM_CNT_0x02
    // RESERVED_0x03_0x04
    Register(0x03, 0x04,
      [WholeWord("_reserved0", false), WholeWord("_reserved1", false)]),
    Single(0x05, "exposure", false),  // EXPOSURE_0x05
    Single(0x06, "luminosity", false),  // LUMINOSITY_0x06
    Single(0x07, "image_sensor_temp", true)  // IS_TEMP_0x07
  ]

  /** The register classes at addresses 0x08-0x11. */
  const Block08: seq<Register> := [
    Single(0x08, "linear_comp_inst", true),  // LINEAR_COMP_INST_0x08
    Single(0x09, "linear_comp_avg", true),  // LINEAR_COMP_AVG_0x09
    Single(0x0A, "shielded_comp_inst", true),  // SHIELDED_COMP_INST_0x0A
    Single(0x0B, "shielded_comp_avg", true),  // SHIELDED_COMP_AVG_0x0B
    Single(0x0C, "_unimplemented", true),  // MAGNIFICATION_COMP_INST_0x0C
    Single(0x0D, "_unimplemented", true),  // MAGNIFICATION_COMP_AVG_0x0D
    Single(0x0E, "_unimplemented", true),  // GRAV_COMP_0x0E
    Single(0x0F, "_unimplemented", true),  // WARMUP_COMP_0x0F
    Single(0x10, "_unimplemented", true),  // LONG_TERM_COMP_0x10
    Single(0x11, "_unimplemented", true)  // STRAY_LIGHT_COMP_0x11
  ]

  /** The register classes at addresses 0x12-0x19. */
  const Block12: seq<Register> := [
    // RESERVED_0x12_0x13
    Register(0x12, 0x13,
      [WholeWord("_reserved0", false), WholeWord("_reserved1", false)]),
    Single(0x14, "serial_lo", false),  // SERIAL_NUMBER_LO_0x14
    Single(0x15, "serial_hi", false),  // SERIAL_NUMBER_HI_0x15
    Layouts1(0x16, FwVersion),  // FW_VERSION_0x16
    Layouts1(0x17, FovLens),  // FOV_LENS_0x17
    Layouts1(0x18, Decentration),  // DECENTRATION_0x18
    Single(0x19, "calib_params", false)  // CALIB_PARAMS_0x19
  ]

  /** The register classes at addresses 0x1A-0x23. */
  const Block1A: seq<Register> := [
    // RESERVED_0x1A_0x1E
    Register(0x1A, 0x1E,
      [WholeWord("_reserved0", false), WholeWord("_reserved1", false), WholeWord("_reserved0", false),
       WholeWord("_reserved0", false), WholeWord("_reserved0", false)]),
    Layouts1(0x1F, CtsCtrl),  // CTS_CTRL_0x1F
    Layouts1(0x20, BbWidth),  // BB_WIDTH_0x20
    Layouts1(0x21, BbHeight),  // BB_HEIGHT_0x21
    Layouts1(0x22, Thres),  // THRES_0x22
    Layouts1(0x23, TempOffset)  // TEMP_OFFSET_0x23
  ]

  /** The register classes at addresses 0x24-0x2B. */
  const Block24: seq<Register> := [
    Single(0x24, "luminosity_target", false),  // EXPCTRL_LUMITGT_0x24
    Single(0x25, "luminosity_thresh", false),  // EXPCTRL_LUMITHS_0x25
    Single(0x26, "exposure_max", false),  // EXPCTRL_EXPMAX_0x26
    Single(0x27, "exposure_min", false),  // EXPCTRL_EXPMIN_0x27
    Layouts1(0x28, ExpctrlConfig),  // EXPCTRL_CONFIG_0x28
    Layouts1(0x29, ShieldedCompConfig),  // SHIELDED_COMP_CONFIG_0x29
    Single(0x2A, "bb_luminosity_target", false),  // EXPCTRL_LUMIBBTGT_0x2A
    Single(0x2B, "bb_luminosity_thresh", false)  // EXPCTRL_LUMIBBTHS_0x2B
  ]

  /** The register classes at addresses 0x2C-0x3F. */
  const Block2C: seq<Register> := [
    // RESERVED_0x2C_0x3B
    Register(0x2C, 0x3B,
      [WholeWord("_reserved0", false), WholeWord("_reserved1", false), WholeWord("_reserved2", false), WholeWord("_reserved3", false),
       WholeWord("_reserved4", false), WholeWord("_reserved5", false), WholeWord("_reserved6", false), WholeWord("_reserved7", false),
       WholeWord("_reserved8", false), WholeWord("_reserved9", false), WholeWord("_reserved10", false), WholeWord("_reserved11", false),
       WholeWord("_reserved12", false), WholeWord("_reserved13", false), WholeWord("_reserved14", false), WholeWord("_reserved15", false)]),
    Layouts1(0x3C, IrResolution),  // IR_RESOLUTION_0x3C
    Layouts1(0x3D, CmosResolution),  // CMOS_RESOLUTION_0x3D
    Layouts1(0x3E, CmosFrameCrc),  // CMOS_FRAME_CRC_0x3E
    Single(0x3F, "cmos_frame_count", false)  // CMOS_FRAME_CNT_ADDR_0x3F
  ]

  // ---------------------------------------------------------------------------
  // Static shape of the layouts and of the map
  // ---------------------------------------------------------------------------

  /** The fields of `l` tile one 32-bit word: the first starts at bit 0, each
      next one starts where the previous ends, the last ends at bit 32, and
      none is empty. For a layout of whole-byte members this is what its
      `sizeof(...) == sizeof(c_uint32)` assertion demands. For a list of
      `c_uint32` bitfields the assertion only says the fields fit one 32-bit
      unit; that they tile it follows from the declared widths. */
  predicate Tiles(l: Layout) {
    && |l| > 0
    && l[0].offset == 0
    && (forall i :: 0 <= i < |l| ==> l[i].width > 0)
    && (forall i, j :: 0 <= i < |l| && 0 <= j < |l| && j == i + 1 ==> l[i].offset + l[i].width == l[j].offset)
    && l[|l| - 1].offset + l[|l| - 1].width == WordBits
  }

  /** The registers `rs` follow each other from address `start` with no gap:
      each starts one past the previous one's last address and spans exactly
      `last - first + 1` words. */
  predicate ContiguousFrom(rs: seq<Register>, start: nat) {
    && (|rs| > 0 ==> rs[0].first == start)
    && (forall i :: 0 <= i < |rs| ==> rs[i].first <= rs[i].last)
    && (forall i :: 0 <= i < |rs| ==> |rs[i].words| == rs[i].last - rs[i].first + 1)
    && (forall i :: 0 <= i < |rs| - 1 ==> rs[i + 1].first == rs[i].last + 1)
  }

  /** The words of all registers, in map order. */
  function WordLayouts(rs: seq<Register>): seq<Layout> {
    if rs == [] then [] else rs[0].words + WordLayouts(rs[1..])
  }

  /** The layout of every address: Layouts[a] is how word `a` is read. */
  const Layouts: seq<Layout> := WordLayouts(RegisterMap)

  lemma {:induction false} WordLayoutsAt(rs: seq<Register>, start: nat, i: nat, k: nat)
    requires ContiguousFrom(rs, start)
    requires i < |rs| && k < |rs[i].words|
    ensures start <= rs[i].first
    ensures rs[i].first - start + k < |WordLayouts(rs)|
    ensures WordLayouts(rs)[rs[i].first - start + k] == rs[i].words[k]
  {
    assert ContiguousFrom(rs[1..], rs[0].last + 1) by {
      forall j | 0 <= j < |rs[1..]| - 1 ensures rs[1..][j + 1].first == rs[1..][j].last + 1 {
        assert rs[1..][j + 1] == rs[j + 2] && rs[1..][j] == rs[j + 1];
      }
    }
    if i > 0 {
      WordLayoutsAt(rs[1..], rs[0].last + 1, i - 1, k);
      assert rs[1..][i - 1] == rs[i];
    }
  }

  lemma {:induction false} WordLayoutsLength(rs: seq<Register>, start: nat)
    requires ContiguousFrom(rs, start) && |rs| > 0
    ensures |WordLayouts(rs)| == rs[|rs| - 1].last + 1 - start
  {
    if |rs| > 1 {
      assert ContiguousFrom(rs[1..], rs[0].last + 1) by {
        forall j | 0 <= j < |rs[1..]| - 1 ensures rs[1..][j + 1].first == rs[1..][j].last + 1 {
          assert rs[1..][j + 1] == rs[j + 2] && rs[1..][j] == rs[j + 1];
        }
      }
      WordLayoutsLength(rs[1..], rs[0].last + 1);
    } else {
      assert rs[1..] == [];
    }
  }

  /** A register spans `last - first + 1` words, each of which tiles its 32
      bits. */
  predicate WellFormed(r: Register) {
    && r.first <= r.last
    && |r.words| == r.last - r.first + 1
    && forall k :: 0 <= k < |r.words| ==> Tiles(r.words[k])
  }

  /** Register `i` of `rs` and every one after it is well formed and starts
      one past the previous one's last address. It is written as a recursion
      on the index so that it can be checked register by register. */
  predicate CheckedFrom(rs: seq<Register>, i: nat)
    decreases |rs| - i
  {
    i >= |rs| ||
    (WellFormed(rs[i]) && (i + 1 < |rs| ==> rs[i + 1].first == rs[i].last + 1) && CheckedFrom(rs, i + 1))
  }

  lemma {:induction false} CheckedAt(rs: seq<Register>, i: nat, j: nat)
    requires i <= j < |rs| && CheckedFrom(rs, i)
    ensures WellFormed(rs[j])
    ensures j + 1 < |rs| ==> rs[j + 1].first == rs[j].last + 1
    decreases j - i
  {
    if i < j {
      CheckedAt(rs, i + 1, j);
    }
  }

  /** A list checked register by register is contiguous and tiles every word. */
  lemma CheckedContiguous(rs: seq<Register>, start: nat)
    requires |rs| > 0 ==> rs[0].first == start
    requires CheckedFrom(rs, 0)
    ensures ContiguousFrom(rs, start)
    ensures forall i, k :: 0 <= i < |rs| && 0 <= k < |rs[i].words| ==> Tiles(rs[i].words[k])
  {
    forall j | 0 <= j < |rs|
      ensures WellFormed(rs[j]) && (j + 1 < |rs| ==> rs[j + 1].first == rs[j].last + 1)
    {
      CheckedAt(rs, 0, j);
    }
  }

  /** Checking `b` after `a` checks `a + b` from the corresponding index. */
  lemma {:induction false} CheckedShift(a: seq<Register>, b: seq<Register>, j: nat)
    requires j <= |b| && CheckedFrom(b, j)
    ensures CheckedFrom(a + b, |a| + j)
    decreases |b| - j
  {
    if j < |b| {
      CheckedShift(a, b, j + 1);
      assert (a + b)[|a| + j] == b[j];
      if j + 1 < |b| {
        assert (a + b)[|a| + j + 1] == b[j + 1];
      }
    }
  }

  /** Two checked lists check together when the second starts one past the
      last address of the first. */
  lemma {:induction false} CheckedAppend(a: seq<Register>, b: seq<Register>, i: nat)
    requires i <= |a| && CheckedFrom(a, i) && CheckedFrom(b, 0)
    requires |a| > 0 && |b| > 0 ==> b[0].first == a[|a| - 1].last + 1
    ensures CheckedFrom(a + b, i)
    decreases |a| - i
  {
    if i == |a| {
      CheckedShift(a, b, 0);
    } else {
      CheckedAppend(a, b, i + 1);
      assert (a + b)[i] == a[i];
      if i + 1 < |a| {
        assert (a + b)[i + 1] == a[i + 1];
      } else if |b| > 0 {
        assert (a + b)[i + 1] == b[0];
      }
    }
  }

  lemma Block00Checked()
    ensures CheckedFrom(Block00, 0)
  {
    SmallLayoutsTile();
    assert CheckedFrom(Block00, 6);
    assert CheckedFrom(Block00, 5);
    assert CheckedFrom(Block00, 4);
    assert CheckedFrom(Block00, 3);
    assert CheckedFrom(Block00, 2);
    assert CheckedFrom(Block00, 1);
  }

  lemma Block08Checked()
    ensures CheckedFrom(Block08, 0)
  {
    assert CheckedFrom(Block08, 9);
    assert CheckedFrom(Block08, 8);
    assert CheckedFrom(Block08, 7);
    assert CheckedFrom(Block08, 6);
    assert CheckedFrom(Block08, 5);
    assert CheckedFrom(Block08, 4);
    assert CheckedFrom(Block08, 3);
    assert CheckedFrom(Block08, 2);
    assert CheckedFrom(Block08, 1);
  }

  lemma Block12Checked()
    ensures CheckedFrom(Block12, 0)
  {
    SmallLayoutsTile();
    BitfieldLayoutsTile();
    assert CheckedFrom(Block12, 6);
    assert CheckedFrom(Block12, 5);
    assert CheckedFrom(Block12, 4);
    assert CheckedFrom(Block12, 3);
    assert CheckedFrom(Block12, 2);
    assert CheckedFrom(Block12, 1);
  }

  lemma Block1AChecked()
    ensures CheckedFrom(Block1A, 0)
  {
    SmallLayoutsTile();
    BitfieldLayoutsTile();
    CtsCtrlTiles();
    assert CheckedFrom(Block1A, 5);
    assert CheckedFrom(Block1A, 4);
    assert CheckedFrom(Block1A, 3);
    assert CheckedFrom(Block1A, 2);
    assert CheckedFrom(Block1A, 1);
  }

  lemma Block24Checked()
    ensures CheckedFrom(Block24, 0)
  {
    SmallLayoutsTile();
    assert CheckedFrom(Block24, 7);
    assert CheckedFrom(Block24, 6);
    assert CheckedFrom(Block24, 5);
    assert CheckedFrom(Block24, 4);
    assert CheckedFrom(Block24, 3);
    assert CheckedFrom(Block24, 2);
    assert CheckedFrom(Block24, 1);
  }

  lemma Block2CChecked()
    ensures CheckedFrom(Block2C, 0)
  {
    SmallLayoutsTile();
    assert CheckedFrom(Block2C, 4);
    assert CheckedFrom(Block2C, 3);
    assert CheckedFrom(Block2C, 2);
    assert CheckedFrom(Block2C, 1);
  }

  /** RegisterMap passes the check, block by block and at each seam
      between two blocks. */
  lemma RegisterMapChecked()
    ensures CheckedFrom(RegisterMap, 0)
  {
    Block00Checked();
    Block08Checked();
    Block12Checked();
    Block1AChecked();
    Block24Checked();
    Block2CChecked();
    CheckedAppend(Block00, Block08, 0);
    CheckedAppend(Block00 + Block08, Block12, 0);
    CheckedAppend(Block00 + Block08 + Block12, Block1A, 0);
    CheckedAppend(Block00 + Block08 + Block12 + Block1A, Block24, 0);
    CheckedAppend(Block00 + Block08 + Block12 + Block1A + Block24, Block2C, 0);
  }

  /** The register classes follow each other in address order with no gap,
      from 0x00 to 0x3F, and each spans the number of words its address range
      names (registers.py:22, :58, :226, :333, :584, :654-698). */
  lemma RegisterMapContiguous()
    ensures |RegisterMap| == 43
    ensures ContiguousFrom(RegisterMap, 0x00)
    ensures RegisterMap[|RegisterMap| - 1].last == 0x3F
  {
    RegisterMapEnds();
    RegisterMapChecked();
    CheckedContiguous(RegisterMap, 0);
  }

  lemma RegisterMapEnds()
    ensures |RegisterMap| == 43
    ensures RegisterMap[0].first == 0x00 && RegisterMap[42].last == 0x3F
  {
  }

  /** The halves-and-bytes layouts tile their word. */
  lemma SmallLayoutsTile()
    ensures Tiles(TempSensor) && Tiles(FwVersion) && Tiles(Thres) && Tiles(TempOffset)
    ensures Tiles(ExpctrlConfig) && Tiles(ShieldedCompConfig) && Tiles(IrResolution)
    ensures Tiles(CmosResolution) && Tiles(CmosFrameCrc)
  {
    HalfLayoutsTile();
    ByteLayoutsTile();
    assert Tiles(ExpctrlConfig);
  }

  lemma HalfLayoutsTile()
    ensures Tiles(TempSensor) && Tiles(TempOffset) && Tiles(ShieldedCompConfig)
    ensures Tiles(CmosResolution) && Tiles(CmosFrameCrc)
  {
  }

  lemma ByteLayoutsTile()
    ensures Tiles(FwVersion) && Tiles(Thres) && Tiles(IrResolution)
  {
  }

  lemma BitfieldLayoutsTile()
    ensures Tiles(FovLens) && Tiles(Decentration)
    ensures forall value :: Tiles(BoundingBox(value))
  {
  }

  /** Fields `i` onwards of `l` are non-empty and each ends where the next
      one starts, the last at bit 32. */
  predicate ChainFrom(l: Layout, i: nat)
    requires i < |l|
    decreases |l| - i
  {
    && l[i].width > 0
    && if i == |l| - 1 then l[i].offset + l[i].width == WordBits
       else l[i].offset + l[i].width == l[i + 1].offset && ChainFrom(l, i + 1)
  }

  lemma {:induction false} ChainTiles(l: Layout, i: nat)
    requires i < |l| && ChainFrom(l, i)
    ensures forall j :: i <= j < |l| ==> l[j].width > 0
    ensures forall j :: i <= j < |l| - 1 ==> l[j].offset + l[j].width == l[j + 1].offset
    ensures l[|l| - 1].offset + l[|l| - 1].width == WordBits
    decreases |l| - i
  {
    if i < |l| - 1 {
      ChainTiles(l, i + 1);
    }
  }

  /** CTS_CTRL_0x1F has eighteen fields; the chain is checked one field at a
      time from the last. */
  lemma CtsCtrlTiles()
    ensures Tiles(CtsCtrl)
  {
    assert ChainFrom(CtsCtrl, 17);
    assert ChainFrom(CtsCtrl, 16);
    assert ChainFrom(CtsCtrl, 15);
    assert ChainFrom(CtsCtrl, 14);
    assert ChainFrom(CtsCtrl, 13);
    assert ChainFrom(CtsCtrl, 12);
    assert ChainFrom(CtsCtrl, 11);
    assert ChainFrom(CtsCtrl, 10);
    assert ChainFrom(CtsCtrl, 9);
    assert ChainFrom(CtsCtrl, 8);
    assert ChainFrom(CtsCtrl, 7);
    assert ChainFrom(CtsCtrl, 6);
    assert ChainFrom(CtsCtrl, 5);
    assert ChainFrom(CtsCtrl, 4);
    assert ChainFrom(CtsCtrl, 3);
    assert ChainFrom(CtsCtrl, 2);
    assert ChainFrom(CtsCtrl, 1);
    assert ChainFrom(CtsCtrl, 0);
    ChainTiles(CtsCtrl, 0);
  }

  /** Every word layout of the map tiles its 32 bits. */
  lemma RegisterMapTiles()
    ensures forall i, k :: 0 <= i < |RegisterMap| && 0 <= k < |RegisterMap[i].words| ==> Tiles(RegisterMap[i].words[k])
  {
    RegisterMapEnds();
    RegisterMapChecked();
    CheckedContiguous(RegisterMap, 0);
  }

  /** Every word of a list of registers satisfies Tiles when each register's
      words do. */
  lemma {:induction false} WordLayoutsTile(rs: seq<Register>)
    requires forall i, k :: 0 <= i < |rs| && 0 <= k < |rs[i].words| ==> Tiles(rs[i].words[k])
    ensures forall a :: 0 <= a < |WordLayouts(rs)| ==> Tiles(WordLayouts(rs)[a])
  {
    if rs != [] {
      assert forall i, k :: 0 <= i < |rs[1..]| && 0 <= k < |rs[1..][i].words| ==> Tiles(rs[1..][i].words[k]) by {
        forall i, k | 0 <= i < |rs[1..]| && 0 <= k < |rs[1..][i].words| ensures Tiles(rs[1..][i].words[k]) {
          assert rs[1..][i] == rs[i + 1];
        }
      }
      WordLayoutsTile(rs[1..]);
      assert forall k :: 0 <= k < |rs[0].words| ==> Tiles(rs[0].words[k]) by {
        forall k | 0 <= k < |rs[0].words| ensures Tiles(rs[0].words[k]) {
          assert 0 < |rs|;
        }
      }
    }
  }

  /** The map is total over its address space: exactly NumRegisters = 64
      words (256 bytes), every one of them with a layout that tiles it. */
  lemma LayoutsShape()
    ensures |Layouts| == NumRegisters && NumRegisters * WordBytes == 256
    ensures forall a :: 0 <= a < |Layouts| ==> Tiles(Layouts[a])
  {
    RegisterMapContiguous();
    WordLayoutsLength(RegisterMap, 0);
    RegisterMapTiles();
    WordLayoutsTile(RegisterMap);
  }

  /** The address of each layout the lemmas below are about. */
  lemma TempSensorAt()
    ensures |Layouts| == 64 && Layouts[0x00] == TempSensor
  {
    LayoutsShape();
    RegisterMapContiguous();
    WordLayoutsAt(RegisterMap, 0, 0, 0);
  }

  lemma FwVersionAt()
    ensures |Layouts| == 64 && Layouts[0x16] == FwVersion
  {
    LayoutsShape();
    RegisterMapContiguous();
    WordLayoutsAt(RegisterMap, 0, 20, 0);
  }

  lemma FovLensAt()
    ensures |Layouts| == 64 && Layouts[0x17] == FovLens
  {
    LayoutsShape();
    RegisterMapContiguous();
    WordLayoutsAt(RegisterMap, 0, 21, 0);
  }

  lemma DecentrationAt()
    ensures |Layouts| == 64 && Layouts[0x18] == Decentration
  {
    LayoutsShape();
    RegisterMapContiguous();
    WordLayoutsAt(RegisterMap, 0, 22, 0);
  }

  lemma CtsCtrlAt()
    ensures |Layouts| == 64 && Layouts[0x1F] == CtsCtrl
  {
    LayoutsShape();
    RegisterMapContiguous();
    WordLayoutsAt(RegisterMap, 0, 25, 0);
  }

  lemma BbWidthAt()
    ensures |Layouts| == 64 && Layouts[0x20] == BbWidth
  {
    LayoutsShape();
    RegisterMapContiguous();
    WordLayoutsAt(RegisterMap, 0, 26, 0);
  }

  lemma BbHeightAt()
    ensures |Layouts| == 64 && Layouts[0x21] == BbHeight
  {
    LayoutsShape();
    RegisterMapContiguous();
    WordLayoutsAt(RegisterMap, 0, 27, 0);
  }

  lemma ThresAt()
    ensures |Layouts| == 64 && Layouts[0x22] == Thres
  {
    LayoutsShape();
    RegisterMapContiguous();
    WordLayoutsAt(RegisterMap, 0, 28, 0);
  }

  lemma TempOffsetAt()
    ensures |Layouts| == 64 && Layouts[0x23] == TempOffset
  {
    LayoutsShape();
    RegisterMapContiguous();
    WordLayoutsAt(RegisterMap, 0, 29, 0);
  }

  lemma ShieldedCompConfigAt()
    ensures |Layouts| == 64 && Layouts[0x29] == ShieldedCompConfig
  {
    LayoutsShape();
    RegisterMapContiguous();
    WordLayoutsAt(RegisterMap, 0, 35, 0);
  }

  lemma IrResolutionAt()
    ensures |Layouts| == 64 && Layouts[0x3C] == IrResolution
  {
    LayoutsShape();
    RegisterMapContiguous();
    WordLayoutsAt(RegisterMap, 0, 39, 0);
  }

  lemma CmosResolutionAt()
    ensures |Layouts| == 64 && Layouts[0x3D] == CmosResolution
  {
    LayoutsShape();
    RegisterMapContiguous();
    WordLayoutsAt(RegisterMap, 0, 40, 0);
  }

  lemma CmosFrameCrcAt()
    ensures |Layouts| == 64 && Layouts[0x3E] == CmosFrameCrc
  {
    LayoutsShape();
    RegisterMapContiguous();
    WordLayoutsAt(RegisterMap, 0, 41, 0);
  }

  // ---------------------------------------------------------------------------
  // The shift-and-mask decoder
  // ---------------------------------------------------------------------------

  /** Bits `offset .. offset + width - 1` of `w`. */
  function RawBits(w: nat, offset: nat, width: nat): (r: nat)
    ensures r < Pow2(width)
  {
    (w / Pow2(offset)) % Pow2(width)
  }

  /** The value ctypes reads for field `f` of the word `w`: its bits, taken as
      two's complement when the field's type is signed. */
  function FieldValue(w: Word, f: Field): (v: int)
    requires f.width > 0
    ensures f.signed ==> -(Pow2(f.width - 1) as int) <= v < Pow2(f.width - 1)
    ensures !f.signed ==> 0 <= v < Pow2(f.width)
  {
    var raw := RawBits(w, f.offset, f.width);
    if f.signed then ToSigned(raw, f.width) else raw
  }

  /** The values of all fields of `l` in `w`, in declaration order. */
  function DecodeWord(w: Word, l: Layout): (values: seq<int>)
    requires forall i :: 0 <= i < |l| ==> l[i].width > 0
    ensures |values| == |l|
  {
    seq(|l|, i requires 0 <= i < |l| => FieldValue(w, l[i]))
  }

  /** Puts every value back at its field's bits (a signed value as its
      two's-complement pattern); it states what "the fields tile the word"
      means and is not an operation of the source, which never writes a
      register. */
  ghost function Repack(l: Layout, values: seq<int>): int
    requires |values| == |l|
    decreases |l|
  {
    if l == [] then 0
    else
      var n := |l| - 1;
      Repack(l[..n], values[..n]) + (values[n] % Pow2(l[n].width)) * Pow2(l[n].offset)
  }

  lemma MulSign(d: int, m: int)
    requires m > 0
    ensures d >= 1 ==> d * m >= m
    ensures d <= -1 ==> d * m <= -m
  {
    if d >= 1 {
      assert (d - 1) * m >= 0;
    } else if d <= -1 {
      assert (-d - 1) * m >= 0;
    }
  }

  /** Euclidean division is unique. */
  lemma DivModUnique(w: int, m: int, q: int, r: int)
    requires m > 0 && 0 <= r < m && w == q * m + r
    ensures w / m == q && w % m == r
  {
    var q0, r0 := w / m, w % m;
    assert (q - q0) * m == r0 - r;
    MulSign(q - q0, m);
  }

  /** Splitting the low bits of `w` at a field boundary. */
  lemma ModProduct(w: nat, p: nat, q: nat)
    requires p > 0 && q > 0
    ensures w % p + ((w / p) % q) * p == w % (p * q)
  {
    var a, r := w / p, w % p;
    var b, t := a / q, a % q;
    Regroup(w, a, r, b, t, p, q);
    LowPartBound(t, r, p, q);
    DivModUnique(w, p * q, b, t * p + r);
  }

  lemma Regroup(w: int, a: int, r: int, b: int, t: int, p: int, q: int)
    requires w == a * p + r && a == b * q + t
    ensures w == b * (p * q) + (t * p + r)
  {
    assert a * p == (b * q + t) * p == b * (p * q) + t * p;
  }

  lemma LowPartBound(t: int, r: int, p: int, q: int)
    requires 0 <= t < q && 0 <= r < p
    ensures t * p + r < p * q
  {
    assert t * p <= (q - 1) * p == q * p - p;
  }

  /** Storing a decoded value back in its field's width gives the field's bits. */
  lemma FieldValueBits(w: Word, f: Field)
    requires f.width > 0
    ensures FieldValue(w, f) % Pow2(f.width) == RawBits(w, f.offset, f.width)
  {
    var raw := RawBits(w, f.offset, f.width);
    if FieldValue(w, f) == raw {
      DivModUnique(raw, Pow2(f.width), 0, raw);
    } else {
      DivModUnique(raw - Pow2(f.width), Pow2(f.width), -1, raw);
    }
  }

  lemma {:induction false} RepackPrefix(w: Word, l: Layout, k: nat)
    requires Tiles(l) && 1 <= k <= |l|
    ensures Repack(l[..k], DecodeWord(w, l)[..k]) == w % Pow2(l[k - 1].offset + l[k - 1].width)
  {
    var values := DecodeWord(w, l);
    var f := l[k - 1];
    var low := Repack(l[..k - 1], values[..k - 1]);
    var high := RawBits(w, f.offset, f.width) * Pow2(f.offset);
    if k == 1 {
      assert f.offset == 0 && Pow2(0) == 1;
      assert l[..0] == [] && values[..0] == [];
      assert low == w % Pow2(f.offset);
    } else {
      RepackPrefix(w, l, k - 1);
      var prev := l[k - 2];
      assert prev.offset + prev.width == f.offset;
      assert Pow2(prev.offset + prev.width) == Pow2(f.offset);
      assert low == w % Pow2(f.offset);
    }
    calc {
      Repack(l[..k], values[..k]);
    == { RepackLast(w, l, k); }
      low + high;
    == { PrefixStep(w, f.offset, f.width); }
      w % Pow2(f.offset + f.width);
    }
  }

  /** Re-packing k decoded fields is re-packing the first k - 1, plus the raw
      bits of field k - 1 put back in place. */
  lemma RepackLast(w: Word, l: Layout, k: nat)
    requires Tiles(l) && 1 <= k <= |l|
    ensures Repack(l[..k], DecodeWord(w, l)[..k])
      == Repack(l[..k - 1], DecodeWord(w, l)[..k - 1]) + RawBits(w, l[k - 1].offset, l[k - 1].width) * Pow2(l[k - 1].offset)
  {
    var values := DecodeWord(w, l);
    assert l[..k][..k - 1] == l[..k - 1] && values[..k][..k - 1] == values[..k - 1];
    assert values[..k][k - 1] == FieldValue(w, l[k - 1]);
    FieldValueBits(w, l[k - 1]);
  }

  /** The bits of `w` below `offset`, plus the raw bits of the next `width`
      bits put back in place, are the bits of `w` below `offset + width`. */
  lemma PrefixStep(w: nat, offset: nat, width: nat)
    ensures w % Pow2(offset) + RawBits(w, offset, width) * Pow2(offset) == w % Pow2(offset + width)
  {
    ModProduct(w, Pow2(offset), Pow2(width));
    Pow2Add(offset, width);
  }

  /** Because the fields of a layout, reserved ones included, tile the word,
      putting every decoded value back at its bits rebuilds the word exactly:
      decoding loses nothing, not even reserved bits. */
  lemma RepackDecoded(w: Word, l: Layout)
    requires Tiles(l)
    ensures Repack(l, DecodeWord(w, l)) == w
  {
    var n := |l|;
    var values := DecodeWord(w, l);
    RepackPrefix(w, l, n);
    assert l[n - 1].offset + l[n - 1].width == WordBits;
    WordModulus(w);
    assert l[..n] == l;
    assert values[..n] == values;
  }

  lemma WordModulus(w: Word)
    ensures w % Pow2(WordBits) == w
  {
    Pow2Values();
    DivModUnique(w, Pow2(WordBits), 0, w);
  }

  // ---------------------------------------------------------------------------
  // What the decoder reads, register by register
  // ---------------------------------------------------------------------------

  /** CTS_CTRL_0x1F: NUM_FRAMES_TO_AVG is bits 8-10, FRAME_RATE_MODE bits
      12-15, and each named flag is the single bit its comment gives. */
  lemma CtsCtrlBits(w: Word)
    ensures CtsCtrl[8].name == "NUM_FRAMES_TO_AVG" && DecodeWord(w, CtsCtrl)[8] == (w / 0x100) % 8
    ensures CtsCtrl[10].name == "FRAME_RATE_MODE" && DecodeWord(w, CtsCtrl)[10] == (w / 0x1000) % 16
    ensures CtsCtrl[0].name == "EXPOSURE_CTRL_ENABLE_BIT" && DecodeWord(w, CtsCtrl)[0] == w % 2
    ensures CtsCtrl[1].name == "BAD_PIXEL_ENABLE_BIT" && DecodeWord(w, CtsCtrl)[1] == (w / 0x2) % 2
    ensures CtsCtrl[4].name == "LINEAR_COMP_ENABLE_BIT" && DecodeWord(w, CtsCtrl)[4] == (w / 0x10) % 2
    ensures CtsCtrl[5].name == "DX_CENTROID_ENABLE_BIT" && DecodeWord(w, CtsCtrl)[5] == (w / 0x20) % 2
    ensures CtsCtrl[7].name == "SHIELDED_COMP_ENABLE_BIT" && DecodeWord(w, CtsCtrl)[7] == (w / 0x80) % 2
    ensures CtsCtrl[12].name == "ENABLE_CMOS_TEST_PATTERN" && DecodeWord(w, CtsCtrl)[12] == (w / 0x100_0000) % 2
    ensures CtsCtrl[13].name == "ENABLE_CENTROID_TEST_PATTERN" && DecodeWord(w, CtsCtrl)[13] == (w / 0x200_0000) % 2
    ensures CtsCtrl[15].name == "DISABLE_I2C_POLL" && DecodeWord(w, CtsCtrl)[15] == (w / 0x2000_0000) % 2
    ensures CtsCtrl[17].name == "DISABLE_IMG_PROC" && DecodeWord(w, CtsCtrl)[17] == w / 0x8000_0000
  {
    Pow2Values();
    CtsCtrlTiles();
  }

  /** The example word NUM_FRAMES_TO_AVG = 3, FRAME_RATE_MODE = 1 (0x1300):
      those two fields read 3 and 1 and every other field reads 0. */
  lemma CtsCtrlExample()
    ensures 0x1300 == 3 * 0x100 + 1 * 0x1000
    ensures DecodeWord(0x1300, CtsCtrl) == [0, 0, 0, 0, 0, 0, 0, 0, 3, 0, 1, 0, 0, 0, 0, 0, 0, 0]
  {
    CtsCtrlTiles();
    CtsCtrlExampleLow();
    CtsCtrlExampleHigh();
    var d := DecodeWord(0x1300, CtsCtrl);
    assert d == d[..9] + d[9..];
  }

  lemma CtsCtrlExampleLow()
    ensures |CtsCtrl| == 18
    ensures DecodeWord(0x1300, CtsCtrl)[..9] == [0, 0, 0, 0, 0, 0, 0, 0, 3]
  {
    Pow2Values();
    CtsCtrlTiles();
  }

  lemma CtsCtrlExampleHigh()
    ensures |CtsCtrl| == 18
    ensures DecodeWord(0x1300, CtsCtrl)[9..] == [0, 1, 0, 0, 0, 0, 0, 0, 0]
  {
    Pow2Values();
    CtsCtrlTiles();
  }

  /** BB_WIDTH_0x20 / BB_HEIGHT_0x21: the four 6-bit values sit at bits 0, 8,
      16 and 24, each followed by a 2-bit pad; the last pad is bits 30-31. */
  lemma BoundingBoxBits(w: Word, value: string)
    ensures DecodeWord(w, BoundingBox(value))[0] == w % 64
    ensures DecodeWord(w, BoundingBox(value))[2] == (w / 0x100) % 64
    ensures DecodeWord(w, BoundingBox(value))[4] == (w / 0x1_0000) % 64
    ensures DecodeWord(w, BoundingBox(value))[6] == (w / 0x100_0000) % 64
    ensures DecodeWord(w, BoundingBox(value))[1] == (w / 0x40) % 4
    ensures DecodeWord(w, BoundingBox(value))[3] == (w / 0x4000) % 4
    ensures DecodeWord(w, BoundingBox(value))[5] == (w / 0x40_0000) % 4
    ensures DecodeWord(w, BoundingBox(value))[7] == w / 0x4000_0000
  {
    Pow2Values();
    BitfieldLayoutsTile();
  }

  /** FOV_LENS_0x17: fields at bits 0-5, 6-11, 12-15, 16-21, 22-26, 27-31. */
  lemma FovLensBits(w: Word)
    ensures DecodeWord(w, FovLens)[0] == w % 64
    ensures DecodeWord(w, FovLens)[1] == (w / 0x40) % 64
    ensures DecodeWord(w, FovLens)[2] == (w / 0x1000) % 16
    ensures DecodeWord(w, FovLens)[3] == (w / 0x1_0000) % 64
    ensures DecodeWord(w, FovLens)[4] == (w / 0x40_0000) % 32
    ensures DecodeWord(w, FovLens)[5] == w / 0x800_0000
  {
    Pow2Values();
    BitfieldLayoutsTile();
  }

  /** DECENTRATION_0x18: fields at bits 0-9, 10-19, 20-25, 26-31, all unsigned. */
  lemma DecentrationBits(w: Word)
    ensures DecodeWord(w, Decentration)[0] == w % 1024
    ensures DecodeWord(w, Decentration)[1] == (w / 0x400) % 1024
    ensures DecodeWord(w, Decentration)[2] == (w / 0x10_0000) % 64
    ensures DecodeWord(w, Decentration)[3] == w / 0x400_0000
  {
    Pow2Values();
    BitfieldLayoutsTile();
  }

  // ---------------------------------------------------------------------------
  // Whole-byte fields agree with reading the word's bytes
  // ---------------------------------------------------------------------------

  /** The register word stored little-endian in four bytes, as
      `from_buffer_copy` reads it. */
  function WordOf(b: seq<Byte>): (w: Word)
    requires |b| == WordBytes
    ensures w < Pow2(8 * WordBytes) && LeBytes(w, WordBytes) == b
  {
    assert Pow2(32) == 0x1_0000_0000 by { Pow2Values(); }
    LeBytesOfUnsigned(b);
    LeUnsigned(b)
  }

  /** Bits 8i .. 8(i+n)-1 of a little-endian integer are its bytes i .. i+n-1. */
  lemma ByteAlignedBits(b: seq<Byte>, i: nat, n: nat)
    requires i + n <= |b|
    ensures RawBits(LeUnsigned(b), 8 * i, 8 * n) == LeUnsigned(b[i..i + n])
  {
    LeHighBytes(b, i);
    LeLowBytes(b[i..], n);
    assert b[i..][..n] == b[i..i + n];
  }

  /** Dividing by 2^(8i) drops the lowest `i` bytes. */
  lemma LeHighBytes(b: seq<Byte>, i: nat)
    requires i <= |b|
    ensures LeUnsigned(b) / Pow2(8 * i) == LeUnsigned(b[i..])
  {
    LeSplit(b, i);
    SplitDivMod(LeUnsigned(b), LeUnsigned(b[..i]), Pow2(8 * i), LeUnsigned(b[i..]));
  }

  /** Reducing modulo 2^(8n) keeps the lowest `n` bytes. */
  lemma LeLowBytes(b: seq<Byte>, n: nat)
    requires n <= |b|
    ensures LeUnsigned(b) % Pow2(8 * n) == LeUnsigned(b[..n])
  {
    LeSplit(b, n);
    SplitDivMod(LeUnsigned(b), LeUnsigned(b[..n]), Pow2(8 * n), LeUnsigned(b[n..]));
  }

  lemma SplitDivMod(w: int, lo: int, p: int, hi: int)
    requires p > 0 && 0 <= lo < p && w == lo + p * hi
    ensures w / p == hi && w % p == lo
  {
    DivModUnique(w, p, hi, lo);
  }

  /** What ctypes reads for a c_(u)int8/16/32 member: the little-endian
      integer in the member's own bytes, two's complement if it is signed. */
  function ByteRead(b: seq<Byte>, f: Field): (v: int)
    requires 0 < f.width && f.offset % 8 == 0 && f.width % 8 == 0 && f.offset + f.width <= 8 * |b|
    ensures f.signed ==> -(Pow2(f.width - 1) as int) <= v < Pow2(f.width - 1)
    ensures !f.signed ==> 0 <= v < Pow2(f.width)
  {
    var bytes := b[f.offset / 8 .. (f.offset + f.width) / 8];
    assert 8 * |bytes| == f.width;
    if f.signed then ToSigned(LeUnsigned(bytes), f.width) else LeUnsigned(bytes)
  }

  /** A bitfield that starts and ends on a byte boundary decodes to the
      same value as the whole-byte member it stands for. */
  lemma ByteAlignedField(b: seq<Byte>, f: Field)
    requires |b| == WordBytes
    requires 0 < f.width && f.offset % 8 == 0 && f.width % 8 == 0 && f.offset + f.width <= WordBits
    ensures FieldValue(WordOf(b), f) == ByteRead(b, f)
  {
    ByteBoundaries(f.offset, f.width);
    ByteAlignedFieldAt(b, f, f.offset / 8, f.width / 8);
  }

  /** The same, with the field's first byte `i` and byte count `n` named. */
  lemma ByteAlignedFieldAt(b: seq<Byte>, f: Field, i: nat, n: nat)
    requires |b| == WordBytes && 0 < f.width
    requires f.offset == 8 * i && f.width == 8 * n && i + n <= WordBytes
    ensures f.offset % 8 == 0 && f.width % 8 == 0 && f.offset + f.width <= WordBits
    ensures FieldValue(WordOf(b), f) == ByteRead(b, f)
  {
    ByteReadAt(b, f, i, n);
    ByteAlignedBits(b, i, n);
  }

  /** ByteRead of a field whose first byte is `i` and byte count `n` reads
      bytes i .. i+n-1. */
  lemma ByteReadAt(b: seq<Byte>, f: Field, i: nat, n: nat)
    requires |b| == WordBytes && 0 < f.width
    requires f.offset == 8 * i && f.width == 8 * n && i + n <= WordBytes
    ensures f.offset % 8 == 0 && f.width % 8 == 0 && f.offset + f.width <= WordBits
    ensures LeUnsigned(b[i..i + n]) < Pow2(f.width)
    ensures ByteRead(b, f) == if f.signed then ToSigned(LeUnsigned(b[i..i + n]), f.width) else LeUnsigned(b[i..i + n])
  {
    assert f.offset / 8 == i && (f.offset + f.width) / 8 == i + n;
  }

  lemma ByteBoundaries(offset: nat, width: nat)
    requires offset % 8 == 0 && width % 8 == 0
    ensures 8 * (offset / 8) == offset && 8 * (width / 8) == width
    ensures offset / 8 + width / 8 == (offset + width) / 8
  {
  }

  /** A c_uint8 member at byte `k` reads byte `k`. */
  lemma ByteField(b: seq<Byte>, f: Field, k: nat)
    requires |b| == WordBytes && k < WordBytes
    requires f.offset == 8 * k && f.width == 8 && !f.signed
    ensures FieldValue(WordOf(b), f) == b[k]
  {
    ByteAlignedField(b, f);
    assert b[k..k + 1] == [b[k]];
  }

  /** FW_VERSION_0x16 reads the four bytes of the word, patch first. */
  lemma FwVersionBytes(b: seq<Byte>)
    requires |b| == WordBytes
    ensures DecodeWord(WordOf(b), FwVersion) == b
  {
    SmallLayoutsTile();
    ByteField(b, FwVersion[0], 0);
    ByteField(b, FwVersion[1], 1);
    ByteField(b, FwVersion[2], 2);
    ByteField(b, FwVersion[3], 3);
  }

  /** THRES_0x22 reads the four bytes of the word, thres0 first. */
  lemma ThresBytes(b: seq<Byte>)
    requires |b| == WordBytes
    ensures DecodeWord(WordOf(b), Thres) == b
  {
    SmallLayoutsTile();
    ByteField(b, Thres[0], 0);
    ByteField(b, Thres[1], 1);
    ByteField(b, Thres[2], 2);
    ByteField(b, Thres[3], 3);
  }

  /** TEMP_SENSOR_0x00 and TEMP_OFFSET_0x23 read two little-endian int16. */
  lemma Int16PairLayouts(b: seq<Byte>)
    requires |b| == WordBytes
    ensures DecodeWord(WordOf(b), TempSensor) == [LeInt16(b[..2]), LeInt16(b[2..])]
    ensures DecodeWord(WordOf(b), TempOffset) == [LeInt16(b[..2]), LeInt16(b[2..])]
  {
    SmallLayoutsTile();
    Pow2Values();
    ByteAlignedField(b, TempSensor[0]);
    ByteAlignedField(b, TempSensor[1]);
    ByteAlignedField(b, TempOffset[0]);
    ByteAlignedField(b, TempOffset[1]);
    assert b[0..2] == b[..2] && b[2..4] == b[2..];
  }

  /** SHIELDED_COMP_CONFIG_0x29 reads an int16 then a uint16; IR_RESOLUTION_0x3C
      two bytes then a uint16; CMOS_RESOLUTION_0x3D and CMOS_FRAME_CRC_0x3E two
      uint16. */
  lemma MixedHalfLayouts(b: seq<Byte>)
    requires |b| == WordBytes
    ensures DecodeWord(WordOf(b), ShieldedCompConfig) == [LeInt16(b[..2]), LeUnsigned(b[2..])]
    ensures DecodeWord(WordOf(b), IrResolution) == [b[0], b[1], LeUnsigned(b[2..])]
    ensures DecodeWord(WordOf(b), CmosResolution) == [LeUnsigned(b[..2]), LeUnsigned(b[2..])]
    ensures DecodeWord(WordOf(b), CmosFrameCrc) == [LeUnsigned(b[..2]), LeUnsigned(b[2..])]
  {
    ShieldedCompConfigBytes(b);
    IrResolutionBytes(b);
    HalfWordBytes(b);
  }

  lemma ShieldedCompConfigBytes(b: seq<Byte>)
    requires |b| == WordBytes
    ensures DecodeWord(WordOf(b), ShieldedCompConfig) == [LeInt16(b[..2]), LeUnsigned(b[2..])]
  {
    Pow2Values();
    ByteAlignedField(b, ShieldedCompConfig[0]);
    ByteAlignedField(b, ShieldedCompConfig[1]);
    assert b[0..2] == b[..2] && b[2..4] == b[2..];
  }

  lemma IrResolutionBytes(b: seq<Byte>)
    requires |b| == WordBytes
    ensures DecodeWord(WordOf(b), IrResolution) == [b[0], b[1], LeUnsigned(b[2..])]
  {
    Pow2Values();
    ByteAlignedField(b, IrResolution[0]);
    ByteAlignedField(b, IrResolution[1]);
    ByteAlignedField(b, IrResolution[2]);
    assert b[2..4] == b[2..];
    assert b[0..1] == [b[0]] && b[1..2] == [b[1]];
  }

  lemma HalfWordBytes(b: seq<Byte>)
    requires |b| == WordBytes
    ensures DecodeWord(WordOf(b), CmosResolution) == [LeUnsigned(b[..2]), LeUnsigned(b[2..])]
    ensures DecodeWord(WordOf(b), CmosFrameCrc) == [LeUnsigned(b[..2]), LeUnsigned(b[2..])]
  {
    Pow2Values();
    ByteAlignedField(b, CmosResolution[0]);
    ByteAlignedField(b, CmosResolution[1]);
    ByteAlignedField(b, CmosFrameCrc[0]);
    ByteAlignedField(b, CmosFrameCrc[1]);
    assert b[0..2] == b[..2] && b[2..4] == b[2..];
  }

  /** A one-word register reads the whole word, as c_int32 or c_uint32. */
  lemma WholeWordLayout(b: seq<Byte>, name: string, signed: bool)
    requires |b| == WordBytes
    ensures DecodeWord(WordOf(b), WholeWord(name, signed)) == [if signed then ToSigned(LeUnsigned(b), 32) else LeUnsigned(b)]
  {
    Pow2Values();
    ByteAlignedField(b, WholeWord(name, signed)[0]);
    assert b[0..4] == b;
  }

  // ---------------------------------------------------------------------------
  // Frame rates (CIS_frame_rate_enum)
  // ---------------------------------------------------------------------------

  /** The CIS frame rates that FRAME_RATE_MODE selects. */
  datatype FrameRate = Fps60 | Fps32 | Fps8 | Fps1

  /** The enum value stored in FRAME_RATE_MODE. */
  function FrameRateCode(r: FrameRate): (v: nat)
    ensures v < 4
  {
    match r
    case Fps60 => 0
    case Fps32 => 1
    case Fps8 => 2
    case Fps1 => 3
  }

  function FramesPerSecond(r: FrameRate): nat {
    match r
    case Fps60 => 60
    case Fps32 => 32
    case Fps8 => 8
    case Fps1 => 1
  }

  /** The frame rate a FRAME_RATE_MODE value denotes; values 4-15 fit the
      4-bit field but name no member of the enum. */
  function FrameRateOf(v: int): (r: Option<FrameRate>)
    ensures r.Some? <==> 0 <= v < 4
    ensures r.Some? ==> FrameRateCode(r.value) == v
  {
    if v == 0 then Some(Fps60)
    else if v == 1 then Some(Fps32)
    else if v == 2 then Some(Fps8)
    else if v == 3 then Some(Fps1)
    else None
  }

  /** Codes and rates determine each other; 0, 1, 2, 3 are 60, 32, 8, 1 FPS. */
  lemma FrameRateCodes(r: FrameRate)
    ensures FrameRateOf(FrameRateCode(r)) == Some(r)
    ensures FrameRateCode(r) < Pow2(CtsCtrl[10].width)
    ensures FramesPerSecond(r) == [60, 32, 8, 1][FrameRateCode(r)]
  {
    Pow2Values();
  }

  // ---------------------------------------------------------------------------
  // The whole map
  // ---------------------------------------------------------------------------

  /** The 256 metadata bytes as 64 register words, word `a` at bytes 4a..4a+3. */
  function Words(bytes: seq<Byte>): (ws: seq<Word>)
    requires |bytes| == NumRegisters * WordBytes
    ensures |ws| == NumRegisters
    ensures forall a :: 0 <= a < NumRegisters ==>
      ws[a] < Pow2(8 * WordBytes) && LeBytes(ws[a], WordBytes) == bytes[WordBytes * a .. WordBytes * a + WordBytes]
  {
    seq(NumRegisters, a requires 0 <= a < NumRegisters => WordOf(bytes[WordBytes * a .. WordBytes * a + WordBytes]))
  }

  /** Every word of the map, decoded through the layout of its address: what
      reading the fields of a RegisterMap gives. */
  function DecodeWords(ws: seq<Word>): (fields: seq<seq<int>>)
    requires |ws| == NumRegisters
    ensures |fields| == NumRegisters == |Layouts|
    ensures forall a :: 0 <= a < NumRegisters ==> |fields[a]| == |Layouts[a]|
  {
    LayoutsShape();
    seq(NumRegisters, a requires 0 <= a < NumRegisters => DecodeWord(ws[a], Layouts[a]))
  }

  /** The register map stored in 256 bytes, decoded. */
  function DecodeRegisterMap(bytes: seq<Byte>): (fields: seq<seq<int>>)
    requires |bytes| == NumRegisters * WordBytes
    ensures |fields| == NumRegisters == |Layouts|
    ensures forall a :: 0 <= a < NumRegisters ==> |fields[a]| == |Layouts[a]|
  {
    DecodeWords(Words(bytes))
  }

  /** Assembling words loses nothing: the bytes are the concatenation of the
      little-endian encodings of the words. */
  lemma {:induction false} WordsEncode(bytes: seq<Byte>)
    requires |bytes| == NumRegisters * WordBytes
    ensures forall j :: 0 <= j < |bytes| ==> Pow2(32) == 0x1_0000_0000 && bytes[j] == LeBytes(Words(bytes)[j / 4], 4)[j % 4]
  {
    Pow2Values();
    var ws := Words(bytes);
    forall j | 0 <= j < |bytes| ensures bytes[j] == LeBytes(ws[j / 4], 4)[j % 4] {
      var a := j / 4;
      var chunk := bytes[4 * a .. 4 * a + 4];
      LeBytesOfUnsigned(chunk);
      assert chunk[j % 4] == bytes[j];
    }
  }

  /** Decoding the metadata is injective: two different 256-byte sections never
      decode to the same register values, because every layout, reserved
      fields included, covers all 32 bits of its word. */
  lemma DecodeRegisterMapInjective(b1: seq<Byte>, b2: seq<Byte>)
    requires |b1| == |b2| == NumRegisters * WordBytes
    requires DecodeRegisterMap(b1) == DecodeRegisterMap(b2)
    ensures b1 == b2
  {
    DecodeWordsInjective(Words(b1), Words(b2));
    WordsInjective(b1, b2);
  }

  /** Decoding the words is injective, because every layout, reserved fields
      included, covers all 32 bits of its word. */
  lemma DecodeWordsInjective(w1: seq<Word>, w2: seq<Word>)
    requires |w1| == |w2| == NumRegisters
    requires DecodeWords(w1) == DecodeWords(w2)
    ensures w1 == w2
  {
    LayoutsShape();
    forall a | 0 <= a < NumRegisters ensures w1[a] == w2[a] {
      assert DecodeWords(w1)[a] == DecodeWord(w1[a], Layouts[a]);
      assert DecodeWords(w2)[a] == DecodeWord(w2[a], Layouts[a]);
      RepackDecoded(w1[a], Layouts[a]);
      RepackDecoded(w2[a], Layouts[a]);
    }
  }

  /** Two metadata sections with the same words are the same bytes. */
  lemma WordsInjective(b1: seq<Byte>, b2: seq<Byte>)
    requires |b1| == |b2| == NumRegisters * WordBytes
    requires Words(b1) == Words(b2)
    ensures b1 == b2
  {
    WordsEncode(b1);
    WordsEncode(b2);
  }

  /** NUM_FRAMES_TO_AVG and FRAME_RATE_MODE of a metadata section: bits 8-10
      and 12-15 of the little-endian word at bytes 0x7C-0x7F. */
  lemma MetadataCtsCtrl(bytes: seq<Byte>)
    requires |bytes| == NumRegisters * WordBytes
    ensures |DecodeRegisterMap(bytes)[0x1F]| == |CtsCtrl|
    ensures DecodeRegisterMap(bytes)[0x1F][8] == (LeUnsigned(bytes[0x7C..0x80]) / 0x100) % 8
    ensures DecodeRegisterMap(bytes)[0x1F][10] == (LeUnsigned(bytes[0x7C..0x80]) / 0x1000) % 16
  {
    CtsCtrlAt();
    var w := Words(bytes)[0x1F];
    assert w == LeUnsigned(bytes[0x7C..0x80]);
    assert DecodeRegisterMap(bytes)[0x1F] == DecodeWord(w, CtsCtrl);
    CtsCtrlBits(w);
  }

  /** FW_VERSION of a metadata section: patch, minor, major are bytes 0x58,
      0x59, 0x5A. */
  lemma MetadataFwVersion(bytes: seq<Byte>)
    requires |bytes| == NumRegisters * WordBytes
    ensures DecodeRegisterMap(bytes)[0x16] == bytes[0x58..0x5C]
  {
    FwVersionAt();
    FwVersionBytes(bytes[0x58..0x5C]);
  }

  /** temperature_sensor_0 of a metadata section: the int16 at bytes 0-1. */
  lemma MetadataTemperature(bytes: seq<Byte>)
    requires |bytes| == NumRegisters * WordBytes
    ensures DecodeRegisterMap(bytes)[0x00][0] == LeInt16(bytes[0..2])
  {
    TempSensorAt();
    var w := Words(bytes)[0x00];
    assert w == WordOf(bytes[0..4]);
    assert DecodeRegisterMap(bytes)[0x00] == DecodeWord(w, TempSensor);
    Int16PairLayouts(bytes[0..4]);
    assert bytes[0..4][..2] == bytes[0..2];
  }

  /** RESERVED_0x1A_0x1E declares `_reserved0` four times and still spans its
      five addresses, one whole word each. */
  lemma ReservedRepeatedName()
    ensures |RegisterMap[24].words| == 5 == RegisterMap[24].last - RegisterMap[24].first + 1
    ensures |Layouts| == NumRegisters
    ensures Layouts[0x1A] == Layouts[0x1C] == Layouts[0x1D] == Layouts[0x1E] == WholeWord("_reserved0", false)
    ensures Layouts[0x1B] == WholeWord("_reserved1", false)
  {
    LayoutsShape();
    RegisterMapContiguous();
    WordLayoutsAt(RegisterMap, 0, 24, 0);
    WordLayoutsAt(RegisterMap, 0, 24, 1);
    WordLayoutsAt(RegisterMap, 0, 24, 2);
    WordLayoutsAt(RegisterMap, 0, 24, 3);
    WordLayoutsAt(RegisterMap, 0, 24, 4);
  }
}

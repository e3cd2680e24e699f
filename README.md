# Thermal-sensor SPI frame codec, modelled in Dafny

This project models the frame codec of the `ctsgen3` thermal-sensor tools.
A sensor sends its telemetry over SPI as one packed little-endian packet of four
sections:

| section | offset | bytes |
|---|---|---|
| thermal frame | 0 | 602 |
| metadata register map | 602 | 258 |
| CV foreground | 860 | 602 |
| CV detections | 1462 | 422 |

Each section ends in a little-endian u16 CRC over the section's other bytes.
The CRC is CRC-16 with polynomial 0x1021, initial value 0xFFFF, no reflection and
final XOR 0 (the CCITT-FALSE parameter set).

The project has five modules, one per concern:

- `Bytes` (`bytes.dfy`): little-endian unsigned and two's-complement readings of
  byte strings, the way ctypes reads `c_uintN` and `c_intN` members. It also holds
  their inverses, injectivity, and the powers of two used everywhere.
- `Crc16` (`crc16.dfy`): the CRC as a bit-level specification, plus a bitwise
  implementation (`Compute`, two nested loops) proved equal to it. It also has the
  catalogue check value and a proof that every one-byte error changes the checksum.
- `Registers` (`registers.dfy`): the 64-word metadata register map. Every register
  class of the source is written as data: a list of (name, bit offset, bit width,
  signed) fields per word. One shift-and-mask decoder reads the classes.
  - Static lemmas prove that the map covers 0x00-0x3F with no gap and that every
    layout tiles its 32 bits.
  - Re-packing the decoded fields of any word gives back the word. So decoding the
    metadata loses nothing, reserved bits included.
  - Further lemmas give the bits and bytes that each named field reads.
- `Spi` (`spi.dfy`): the packet layout, parsing a read (`from_buffer_copy`), and
  the section CRC check. Also `spi.py`'s monitoring loop:
  - it checks all four sections of every read, in the order thermal, foreground,
    detections, metadata;
  - it records every failure with its stored ("Got") and recomputed ("Expected")
    value;
  - it stops when a read is too short to parse.
- `Player` (`player.dfy`): one animation frame of `ctsplayer.py`'s `update`. The
  same four checks run with an early return at the first failure. The class
  `Display` holds the two heatmap images. They are replaced only when every check
  passes; a cell is `sample[r * 20 + c] / 256`.

`Wrappers` (`wrappers.dfy`) holds the `Option` and `Result` types.

Two behaviours of the code are worth stating plainly:

- `from_buffer_copy` decodes the first 1884 bytes (`sizeof(SpiPacket)`) of any
  longer buffer. The monitoring loop reads 2500 bytes, of which the last 616 are
  ignored. A shorter buffer is refused (`BufferTooShort`).
- A failed CRC check only prints; the payload is decoded anyway. `Reports` lists
  the failures and `ParsePacket` decodes every section whatever its check says.

Where a comment or docstring of the source and its declarations differ, the
model follows the declarations:

- `BB_WIDTH_0x20` and `BB_HEIGHT_0x21` comment their last pad as bits 29-31
  (`registers.py` lines 395 and 416). The declared widths put it at bits 30-31,
  and that is what the model decodes.
- The docstring of `THRES_0x22` (line 426) calls its values 6-bit, but the class
  declares four `c_uint8`. The model reads four whole bytes.
- The docstring of `DECENTRATION_0x18` (line 291) calls its values fixed-point
  numbers. The class declares unsigned bitfields, which the model reads as
  unsigned integers.

## Model

| member | source | states |
|---|---|---|
| Registers.RegisterMapContiguous | src/ctsgen3/registers/registers.py:645-699 | RegisterMap has 43 register classes in declaration order. They start at address 0x00 and end at 0x3F. Each starts one past the previous one's last address and spans last - first + 1 words, so there is no gap or overlap |
| Registers.RegisterMapTiles | src/ctsgen3/registers/registers.py:8-642 | every word layout of every register class tiles its 32 bits: the first field starts at bit 0, each next field starts where the previous one ends, none is empty, and the last ends at bit 32. For whole-byte layouts this is what the `sizeof(...) == sizeof(c_uint32)` assertion demands; for `c_uint32` bitfield lists it follows from the declared widths, the assertion only bounding them to one unit |
| Registers.LayoutsShape | src/ctsgen3/registers/registers.py:5 | the map gives a layout to exactly NUM_REGISTERS = 64 addresses (256 bytes), and every one of those layouts tiles its word |
| Registers.ReservedRepeatedName | src/ctsgen3/registers/registers.py:318-333 | RESERVED_0x1A_0x1E spans exactly its five addresses, one whole u32 each. Each of the five declarations keeps its own word, so the repeated name `_reserved0` merges nothing: the declarations at 0x1A, 0x1C, 0x1D and 0x1E are `_reserved0` and 0x1B is `_reserved1`. Read by name, `_reserved0` reaches only the last of them, 0x1E |
| Registers.TempSensorAt | src/ctsgen3/registers/registers.py:655 | address 0x00 is read through TEMP_SENSOR_0x00's layout |
| Registers.FwVersionAt | src/ctsgen3/registers/registers.py:675 | address 0x16 is read through FW_VERSION_0x16's layout |
| Registers.FovLensAt | src/ctsgen3/registers/registers.py:676 | address 0x17 is read through FOV_LENS_0x17's layout |
| Registers.DecentrationAt | src/ctsgen3/registers/registers.py:677 | address 0x18 is read through DECENTRATION_0x18's layout |
| Registers.CtsCtrlAt | src/ctsgen3/registers/registers.py:680 | address 0x1F is read through CTS_CTRL_0x1F's layout |
| Registers.BbWidthAt | src/ctsgen3/registers/registers.py:681 | address 0x20 is read through BB_WIDTH_0x20's layout |
| Registers.BbHeightAt | src/ctsgen3/registers/registers.py:682 | address 0x21 is read through BB_HEIGHT_0x21's layout |
| Registers.ThresAt | src/ctsgen3/registers/registers.py:683 | address 0x22 is read through THRES_0x22's layout |
| Registers.TempOffsetAt | src/ctsgen3/registers/registers.py:684 | address 0x23 is read through TEMP_OFFSET_0x23's layout |
| Registers.ShieldedCompConfigAt | src/ctsgen3/registers/registers.py:690 | address 0x29 is read through SHIELDED_COMP_CONFIG_0x29's layout |
| Registers.IrResolutionAt | src/ctsgen3/registers/registers.py:694 | address 0x3C is read through IR_RESOLUTION_0x3C's layout |
| Registers.CmosResolutionAt | src/ctsgen3/registers/registers.py:695 | address 0x3D is read through CMOS_RESOLUTION_0x3D's layout |
| Registers.CmosFrameCrcAt | src/ctsgen3/registers/registers.py:696 | address 0x3E is read through CMOS_FRAME_CRC_0x3E's layout |
| Registers.FieldValue | src/ctsgen3/registers/registers.py:15-18 | a signed field reads a two's-complement value in [-2^(w-1), 2^(w-1)); an unsigned one reads a value in [0, 2^w) |
| Registers.FieldValueBits | src/ctsgen3/registers/registers.py:15-18 | a decoded value, reduced modulo 2^width, is the field's raw bits again, for signed and unsigned fields alike |
| Registers.RepackDecoded | src/ctsgen3/registers/registers.py:379 | for every layout that tiles its word, putting each decoded value back at its field's bits rebuilds the original 32-bit word exactly, reserved fields included |
| Registers.RepackPrefix | src/ctsgen3/registers/registers.py:379 | re-packing the first k decoded fields of a tiling layout gives the word's bits below the end of field k |
| Registers.CtsCtrlBits | src/ctsgen3/registers/registers.py:357-374 | each CTS_CTRL_0x1F field reads its named bits: NUM_FRAMES_TO_AVG is bits 8-10 and FRAME_RATE_MODE is bits 12-15. The named flags are the single bits 0, 1, 4, 5, 7, 24, 25, 29 and 31 |
| Registers.CtsCtrlExample | src/ctsgen3/registers/registers.py:365-367 | the word with NUM_FRAMES_TO_AVG = 3, FRAME_RATE_MODE = 1 and every other bit clear is 0x1300. It decodes to 3 and 1 in those two fields and to 0 in all sixteen others |
| Registers.BoundingBoxBits | src/ctsgen3/registers/registers.py:388-395 | BB_WIDTH and BB_HEIGHT read four 6-bit values at bits 0, 8, 16 and 24, each followed by a 2-bit pad; the last pad is bits 30-31 |
| Registers.FovLensBits | src/ctsgen3/registers/registers.py:275-282 | the FOV_LENS_0x17 fields read bits 0-5, 6-11, 12-15, 16-21, 22-26 and 27-31 |
| Registers.DecentrationBits | src/ctsgen3/registers/registers.py:294-299 | the DECENTRATION_0x18 fields read bits 0-9, 10-19, 20-25 and 26-31, all unsigned |
| Registers.WordOf | src/ctsgen3/registers/registers.py:645 | the word read from four bytes encodes back, little-endian, to exactly those four bytes |
| Registers.ByteAlignedBits | src/ctsgen3/registers/registers.py:645 | in a little-endian integer, bits 8i .. 8(i+n)-1 are the little-endian value of bytes i .. i+n-1 |
| Registers.ByteAlignedField | src/ctsgen3/registers/registers.py:258-263 | a bitfield on byte boundaries reads the same value as the whole-byte member for those bytes |
| Registers.ByteField | src/ctsgen3/registers/registers.py:259-262 | a `c_uint8` member at byte k of a word reads byte k |
| Registers.FwVersionBytes | src/ctsgen3/registers/registers.py:258-263 | FW_VERSION_0x16 reads the four bytes of its word in order: patch = byte 0, minor = byte 1, major = byte 2, reserved = byte 3 |
| Registers.ThresBytes | src/ctsgen3/registers/registers.py:429-434 | THRES_0x22 reads thres0..thres3 as bytes 0..3 |
| Registers.Int16PairLayouts | src/ctsgen3/registers/registers.py:446-449 | TEMP_SENSOR_0x00 and TEMP_OFFSET_0x23 read the little-endian int16 of bytes 0-1 and that of bytes 2-3 |
| Registers.MixedHalfLayouts | src/ctsgen3/registers/registers.py:524-526 | SHIELDED_COMP_CONFIG_0x29 reads an int16 then a uint16. IR_RESOLUTION_0x3C reads byte 0, byte 1, then a uint16. CMOS_RESOLUTION_0x3D and CMOS_FRAME_CRC_0x3E read two uint16 |
| Registers.ShieldedCompConfigBytes | src/ctsgen3/registers/registers.py:524-526 | SHIELDED_COMP_CONFIG_0x29 reads the int16 of bytes 0-1 and the uint16 of bytes 2-3 |
| Registers.IrResolutionBytes | src/ctsgen3/registers/registers.py:592-596 | IR_RESOLUTION_0x3C reads ir_rows = byte 0, ir_cols = byte 1, and the uint16 of bytes 2-3 |
| Registers.HalfWordBytes | src/ctsgen3/registers/registers.py:608-611 | CMOS_RESOLUTION_0x3D and CMOS_FRAME_CRC_0x3E read the uint16 of bytes 0-1 and that of bytes 2-3 |
| Registers.WholeWordLayout | src/ctsgen3/registers/registers.py:30 | a one-word register reads the whole little-endian word, as two's complement for a `c_int32` |
| Registers.FrameRateOf | src/ctsgen3/registers/registers.py:336-344 | a FRAME_RATE_MODE value names an enum member exactly when it is 0-3, and then that member's code is the value |
| Registers.FrameRateCodes | src/ctsgen3/registers/registers.py:336-344 | codes and rates determine each other. Every code fits the 4-bit FRAME_RATE_MODE field. Codes 0, 1, 2, 3 are 60, 32, 8 and 1 FPS |
| Registers.Words | src/ctsgen3/registers/registers.py:645-652 | the 256 metadata bytes hold 64 words, and the four-byte little-endian encoding of word a is exactly bytes 4a .. 4a+3 |
| Registers.WordsEncode | src/ctsgen3/registers/registers.py:645-652 | the bytes are the concatenated four-byte little-endian encodings of their words |
| Registers.WordsInjective | src/ctsgen3/registers/registers.py:645-652 | two metadata byte strings with the same words are equal |
| Registers.DecodeWord | src/ctsgen3/registers/registers.py:15-18 | a word read through a layout gives one value per field; `FieldValueBits` and `RepackDecoded` show that re-packing those values rebuilds the word |
| Registers.DecodeWords | src/ctsgen3/registers/registers.py:654-698 | 64 words decode to one value list per address; `DecodeWordsInjective` shows the decoding loses nothing |
| Registers.DecodeRegisterMap | src/ctsgen3/registers/registers.py:645-698 | the 256 metadata bytes decode to one value list per address; `DecodeRegisterMapInjective` shows the decoding loses nothing |
| Registers.DecodeWordsInjective | src/ctsgen3/registers/registers.py:654-698 | two lists of 64 words whose fields decode to the same values are equal |
| Registers.DecodeRegisterMapInjective | src/ctsgen3/registers/registers.py:654-698 | two 256-byte metadata sections whose register maps decode to the same field values are the same bytes |
| Registers.MetadataCtsCtrl | src/ctsgen3/registers/registers.py:680 | in a decoded metadata section, NUM_FRAMES_TO_AVG and FRAME_RATE_MODE are bits 8-10 and 12-15 of the little-endian word at bytes 0x7C-0x7F |
| Registers.MetadataFwVersion | src/ctsgen3/registers/registers.py:675 | in a decoded metadata section, the FW_VERSION_0x16 fields are bytes 0x58-0x5B |
| Registers.MetadataTemperature | src/ctsgen3/registers/registers.py:655 | in a decoded metadata section, temperature_sensor_0 is the int16 of bytes 0-1 |
| Bytes.LeBijection | src/ctsgen3/spi/spi.py:53 | a two-byte little-endian field holds the value v exactly when it is the encoding of v |
| Bytes.SignedRoundTrip | src/ctsgen3/spi/spi.py:52 | reading an n-bit pattern as two's complement and storing it back gives the pattern again |
| Bytes.LeInt16Injective | src/ctsgen3/spi/spi.py:52 | different two-byte strings are different `c_int16` values |
| Crc16.Compute | src/ctsgen3/spi/spi.py:118-126 | the bitwise loop over bytes and bits computes the CRC of the data under the configured parameters |
| Crc16.Crc | src/ctsgen3/spi/spi.py:118-126 | the checksum of the empty input is the initial value 0xFFFF; `Compute` and `CheckValue` relate it to the bitwise engine and the catalogue value |
| Crc16.CheckValue | src/ctsgen3/spi/spi.py:118-125 | the checksum of ASCII "123456789" is 0x29B1, the catalogue check value of these parameters |
| Crc16.UpdateByteInjective | src/ctsgen3/spi/spi.py:20 | feeding one byte loses nothing. Starting from the same register, different bytes give different registers. The same byte from different registers also gives different registers |
| Crc16.DetectsOneByteChange | src/ctsgen3/spi/spi.py:118-125 | two equally long inputs that differ in exactly one byte have different checksums |
| Spi.OffsetsArePacked | src/ctsgen3/spi/spi.py:99-105 | each section of SpiPacket starts where the sizes of the sections declared before it add up, and the packet is exactly their sum |
| Spi.PacketLayout | src/ctsgen3/spi/spi.py:46-105 | the sections are 602, 258, 602 and 422 bytes, at offsets 0, 602, 860 and 1462, and the packet is 1884 bytes |
| Spi.ReadHoldsPacket | src/ctsgen3/spi/spi.py:128-129 | the 2500-byte transfer of the monitoring loop holds a whole packet |
| Spi.SectionsTile | src/ctsgen3/spi/spi.py:99-105 | every byte of a packet lies in exactly one section, and every section lies inside the packet |
| Spi.PacketIsSections | src/ctsgen3/spi/spi.py:99-105 | the first 1884 bytes of a read are the thermal, metadata, foreground and detections sections, concatenated in that order |
| Spi.SealedIffValid | src/ctsgen3/spi/spi.py:130-135 | a section passes its check exactly when it is its payload (all bytes but the last 2) followed by the little-endian u16 checksum of that payload |
| Spi.SealValid | src/ctsgen3/spi/spi.py:130-135 | any payload, the empty one included, followed by its little-endian checksum passes the check |
| Spi.CorruptedSectionFails | src/ctsgen3/spi/spi.py:130-135 | changing any one byte of a valid section, in the payload or in the crc field, makes it fail its check |
| Spi.CorruptedPayloadFails | src/ctsgen3/spi/spi.py:130-135 | changing a payload byte changes the recomputed checksum and leaves the stored one alone |
| Spi.CorruptedFieldFails | src/ctsgen3/spi/spi.py:130-135 | changing a byte of the crc field changes the stored value and leaves the CRC input alone |
| Spi.DetectionPacking | src/ctsgen3/spi/spi.py:29-39 | CvDetection's members start at bytes 0, 1, 2, 3, 4, 8, 12 and 16, and the record is 20 bytes with no padding |
| Spi.DecodeDetection | src/ctsgen3/spi/spi.py:29-38 | id, label and the two centre coordinates are bytes 0-3, and frames_since_motion is the u32 at bytes 4-7. The three floats are the raw little-endian words at bytes 8-11, 12-15 and 16-19 |
| Spi.DetectionDecodeInjective | src/ctsgen3/spi/spi.py:29-38 | two 20-byte records that decode to the same detection are equal |
| Spi.DecodeFrame | src/ctsgen3/spi/spi.py:51-54 | a frame section decodes to 300 samples; sample i is the c_int16 of bytes 2i and 2i+1, so it lies in [-32768, 32768), and the crc is the stored one |
| Spi.FrameDecodeInjective | src/ctsgen3/spi/spi.py:51-54 | two frame sections that decode alike are the same bytes |
| Spi.SampleBytesEqual | src/ctsgen3/spi/spi.py:52 | equal samples come from equal bytes, byte by byte |
| Spi.DecodeMetadata | src/ctsgen3/spi/spi.py:63-66 | a metadata section decodes to the 64 register words and its stored crc |
| Spi.MetadataDecodeInjective | src/ctsgen3/spi/spi.py:63-66 | two metadata sections that decode alike are the same bytes |
| Spi.DecodeDetections | src/ctsgen3/spi/spi.py:87-90 | a detections section decodes to 21 detections; detection i is the record decoded from bytes 20i .. 20i+19, and the crc is the stored one |
| Spi.DetectionsDecodeInjective | src/ctsgen3/spi/spi.py:87-90 | two detections sections that decode alike are the same bytes |
| Spi.DetectionBytesEqual | src/ctsgen3/spi/spi.py:88 | equal detection lists come from equal bytes, byte by byte |
| Spi.ParsePacket | src/ctsgen3/spi/spi.py:129 | `from_buffer_copy` succeeds exactly when the read holds at least 1884 bytes, and refuses a shorter one with its length |
| Spi.ParseReadsPrefix | src/ctsgen3/spi/spi.py:128-129 | only the first 1884 bytes of a read are interpreted: bytes appended after them do not change the parsed packet |
| Spi.ParsedThermalSample | src/ctsgen3/spi/spi.py:94-105 | in a parsed read, thermal sample i is the c_int16 at bytes 2i, 2i+1 of the read |
| Spi.ParsedForegroundSample | src/ctsgen3/spi/spi.py:94-105 | in a parsed read, foreground sample i is the c_int16 at bytes 860+2i, 861+2i of the read |
| Spi.ParsedDetection | src/ctsgen3/spi/spi.py:94-105 | in a parsed read, detection i is decoded from bytes 1462+20i .. 1481+20i of the read |
| Spi.ParsedContents | src/ctsgen3/spi/spi.py:94-105 | every sample and every detection of a parsed read comes from its own bytes at its absolute offset, in order |
| Spi.ParseInjective | src/ctsgen3/spi/spi.py:94-105 | two reads that parse to the same packet agree on their first 1884 bytes |
| Spi.MetadataRegisters | src/ctsgen3/spi/spi.py:64 | the register fields of a parsed packet are the register map decoded from bytes 602-857 of the read |
| Spi.RecordCrcs | src/ctsgen3/spi/spi.py:135 | each section record's crc member is the little-endian u16 in the last two bytes of that section |
| Spi.Check | src/ctsgen3/spi/spi.py:130-136 | a section's check reports nothing exactly when the section is valid, and otherwise reports that section with stored and recomputed checksums that differ |
| Spi.Reports | src/ctsgen3/spi/spi.py:130-157 | one read gives at most four reports, one per checked section; `ReportsComplete` and `ReportsOrdered` say which and in what order |
| Spi.CheckShape | src/ctsgen3/spi/spi.py:130-136 | a section's check finds nothing exactly when the section is valid. Otherwise it reports the section with its stored and its recomputed checksum |
| Spi.ReportsComplete | src/ctsgen3/spi/spi.py:130-157 | every section is checked whatever the others hold: it appears in the reports of a read exactly when it fails its check |
| Spi.ReportShape | src/ctsgen3/spi/spi.py:135-136 | a section contributes one report when it fails and none when it passes. The report carries "Got" (stored) and "Expected" (recomputed), which differ |
| Spi.ReportsAccurate | src/ctsgen3/spi/spi.py:136 | there are at most four reports, and each carries its section's stored ("Got") and recomputed ("Expected") checksum, which differ |
| Spi.ReportsOrdered | src/ctsgen3/spi/spi.py:130-157 | reports come in check order: thermal, foreground, detections, metadata |
| Spi.RanksGrow | src/ctsgen3/spi/spi.py:130-157 | appending the report of a later section keeps the reports in check order |
| Spi.NoReportsIffAllValid | src/ctsgen3/spi/spi.py:130-157 | a read produces no report exactly when all four sections pass |
| Spi.SingleByteErrorReported | src/ctsgen3/spi/spi.py:130-157 | one corrupted byte anywhere in a clean packet gives exactly one report, for the section that holds the byte |
| Spi.CorruptionConfined | src/ctsgen3/spi/spi.py:130-157 | changing a byte of a read affects only the check of the section holding it, which then fails |
| Spi.CheckSection | src/ctsgen3/spi/spi.py:130-136 | recomputing a section's checksum with the bitwise engine and comparing it with the stored value gives that section's check outcome |
| Spi.CheckPacket | src/ctsgen3/spi/spi.py:128-157 | one loop iteration either refuses a short read, or checks all four sections in check order and records every failure |
| Spi.Monitor | src/ctsgen3/spi/spi.py:127-157 | the loop logs, for each transfer before the first short one, the reports of all four checks. It runs to the end exactly when no transfer is short, and otherwise stops at the first short transfer with its length |
| Player.Blank | src/ctsgen3/ctsplayer.py:31 | the initial image is 15 x 20 zeros |
| Player.Temperature | src/ctsgen3/ctsplayer.py:96-97 | a shown temperature times 256 is the raw sample, exactly |
| Player.Heatmap | src/ctsgen3/ctsplayer.py:96-98 | 300 samples reshape into a 15 x 20 image; `HeatmapCell` and `FlattenHeatmap` say where each sample goes |
| Player.DisplayedCell | src/ctsgen3/ctsplayer.py:58-103 | cell (r, c) of a shown thermal image is the c_int16 at bytes 2(20r+c), 2(20r+c)+1 of the read divided by 256, and that of the foreground image the one 860 bytes further on |
| Player.HeatmapCell | src/ctsgen3/ctsplayer.py:96-98 | sample i is shown in cell (i / 20, i % 20) as sample / 256 |
| Player.FlattenHeatmap | src/ctsgen3/ctsplayer.py:101-103 | the reshape is row-major: reading the image row after row gives back the scaled samples in their original order |
| Player.FlattenRows | src/ctsgen3/ctsplayer.py:96-98 | the first k rows of the image, read in order, are the first 20k scaled samples |
| Player.Gate | src/ctsgen3/ctsplayer.py:52-94 | a frame is unreadable exactly when the read is too short for a packet, and a rejected frame carries differing stored and recomputed checksums |
| Player.UnreadableIffShort | src/ctsgen3/ctsplayer.py:55-57 | a frame is unreadable exactly when the read is shorter than the requested sizeof(SpiPacket), and then the error carries its length |
| Player.DisplayedIffAllValid | src/ctsgen3/ctsplayer.py:58-94 | a frame is displayed exactly when the read holds a packet whose four sections all pass, and it then lists that packet's detections |
| Player.NoFailureIffAllValid | src/ctsgen3/ctsplayer.py:58-89 | the gate finds no failing section exactly when all four pass |
| Player.RejectsFailingSection | src/ctsgen3/ctsplayer.py:58-89 | a rejected frame names a section that fails, with its stored ("Got") and recomputed ("Expected") checksum |
| Player.RejectsFirstFailure | src/ctsgen3/ctsplayer.py:58-89 | the rejected section is the first failing one in check order: every section before it passed |
| Player.FirstFailureIsFirst | src/ctsgen3/ctsplayer.py:58-89 | every section checked before the first failing one passed |
| Player.GateAgreesWithMonitor | src/ctsgen3/ctsplayer.py:58-89 | for the same read, the display rejects a frame exactly when the monitoring loop reports a failure, and for the first failure it reports |
| Player.Display.constructor | src/ctsgen3/ctsplayer.py:31-36 | both images start as 15 x 20 zeros |
| Player.Display.Update | src/ctsgen3/ctsplayer.py:52-107 | one frame's outcome is the gate's. When every check passes, both images become the reshaped, scaled samples of the thermal and foreground sections. On a short read or any failed check, both images keep their previous contents |

## Left out

- The FT4222 SPI transport (device open, clock, mode and chip select, `spiMaster_SingleReadWrite`) is hardware I/O. A read is a parameter of the model (`Gate`, `Display.Update`, `CheckPacket`); the monitoring loop's reads are the sequence `transfers`.
- The loop count of 100000 in the monitoring loop is not modelled: `Monitor` runs over whatever transfers it is given.
- The matplotlib figure, colour bars, `set_clim` normalisation (`min`/`max`, `vmin=-7`), `draw_idle`, `FuncAnimation` and `show` are UI. `Display` keeps only the two images.
- `print`, `__repr__` and the printed messages are left out. A failure is returned as a `CrcFailure` carrying its section, "Got" and "Expected". The detections a displayed frame prints are returned in `Displayed`.
- The third-party `crc` library is not part of this model. Its computation is re-specified from the configured parameters (`Crc16.Crc`) and implemented bitwise (`Crc16.Compute`).
- IEEE-754 floats are not modelled. The three `c_float` members of CvDetection are kept as their raw 32-bit patterns. `float32` division by 256 is modelled as exact real division, which it is for every int16 sample.
- There is no encode path in the source. `Bytes.LeBytes` and `Registers.Repack` are reference definitions used to state round trips, not operations.
- The metadata record of a parsed packet holds the 64 register words, not one structure per register class. Its field values are what `Registers.DecodeWords` reads from those words.
- The register class names are kept as comments in `RegisterMap`, not as data.
- The CvDetection member `label` is called `blobLabel`, because `label` is a reserved word in Dafny.
- A read shorter than `sizeof(SpiPacket)` makes `from_buffer_copy` raise an exception. The model returns the error instead: `Unreadable` in the display, and the end of `Monitor`'s loop. Exceptions themselves are not modelled.

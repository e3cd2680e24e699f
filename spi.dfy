/** The SPI bulk-data packet: four sections packed back to back with no
    padding (thermal frame, metadata, CV foreground, CV detections), each
    closed by a little-endian u16 CRC over the section's other bytes, and the
    monitoring loop that checks all four sections of every read. */
module Spi {
  import opened Wrappers
  import opened Bytes
  import Registers
  import Crc16

  /** PIXEL_HEIGHT, PIXEL_WIDTH and MAX_NUM_DETECTIONS (spi.py:8-16). */
  const PixelHeight: nat := 15
  const PixelWidth: nat := 20
  const MaxNumDetections: nat := 21
  const NumPixels: nat := PixelHeight * PixelWidth

  /** The trailing c_uint16 crc of every section. */
  const CrcBytes: nat := 2
  /** sizeof(CvDetection). */
  const DetectionBytes: nat := 20
  /** sizeof(RegisterMap). */
  const RegisterMapBytes: nat := Registers.NumRegisters * Registers.WordBytes
  /** The length of the transfer the monitoring loop requests. */
  const ReadLength: nat := 2500

  // ---------------------------------------------------------------------------
  // Packet layout
  // ---------------------------------------------------------------------------

  datatype Section = Thermal | Metadata | Foreground | Detections

  /** SpiPacket's members in declaration order. */
  const PacketOrder: seq<Section> := [Thermal, Metadata, Foreground, Detections]
  /** The order in which both the monitoring loop and the display gate check
      the sections. */
  const CheckOrder: seq<Section> := [Thermal, Foreground, Detections, Metadata]

  /** The bytes of a section that its CRC covers. */
  function PayloadSize(s: Section): nat {
    match s
    case Thermal => 2 * NumPixels
    case Metadata => RegisterMapBytes
    case Foreground => 2 * NumPixels
    case Detections => DetectionBytes * MaxNumDetections
  }

  function Size(s: Section): nat {
    PayloadSize(s) + CrcBytes
  }

  /** Where each section starts: right after the sections declared before
      it (`_pack_ = 1`, so no padding). */
  function Offset(s: Section): nat {
    match s
    case Thermal => 0
    case Metadata => Size(Thermal)
    case Foreground => Size(Thermal) + Size(Metadata)
    case Detections => Size(Thermal) + Size(Metadata) + Size(Foreground)
  }

  /** sizeof(SpiPacket): the last section ends the packet. */
  const PacketSize: nat := Offset(Detections) + Size(Detections)

  /** The size of sections packed one after the other. */
  function SizeOf(order: seq<Section>): nat {
    if order == [] then 0 else Size(order[0]) + SizeOf(order[1..])
  }

  /** Every section starts where the sizes of the sections declared before it
      add up to, and the packet is exactly as long as its four sections. */
  lemma OffsetsArePacked()
    ensures forall k :: 0 <= k < |PacketOrder| ==> Offset(PacketOrder[k]) == SizeOf(PacketOrder[..k])
    ensures PacketSize == SizeOf(PacketOrder)
  {
    var o := PacketOrder;
    assert SizeOf(o[..0]) == 0;
    assert o[..1][1..] == o[..0];
    assert SizeOf(o[..1]) == Size(Thermal);
    assert o[..2][1..] == [Metadata] && o[..2][1..][1..] == [];
    assert SizeOf(o[..2]) == Size(Thermal) + Size(Metadata);
    assert [Foreground][1..] == [] && [Metadata, Foreground][1..] == [Foreground];
    assert SizeOf([Metadata, Foreground]) == Size(Metadata) + Size(Foreground);
    assert o[..3][1..] == [Metadata, Foreground];
    assert o[1..] == [Metadata, Foreground, Detections];
    assert o[1..][1..] == [Foreground, Detections];
    assert o[1..][1..][1..] == [Detections];
    assert o[1..][1..][1..][1..] == [];
  }

  /** The section sizes, offsets and total size of the packed packet. */
  lemma PacketLayout()
    ensures Size(Thermal) == 602 && Size(Metadata) == 258
    ensures Size(Foreground) == 602 && Size(Detections) == 422
    ensures Offset(Thermal) == 0 && Offset(Metadata) == 602
    ensures Offset(Foreground) == 860 && Offset(Detections) == 1462
    ensures PacketSize == 1884
  {
  }

  /** The transfer the monitoring loop requests holds a whole packet. */
  lemma ReadHoldsPacket()
    ensures PacketSize <= ReadLength
  {
    PacketLayout();
  }

  /** The section that holds byte `j` of a packet. */
  function SectionAt(j: nat): Section
    requires j < PacketSize
  {
    PacketLayout();
    if j < Offset(Metadata) then Thermal
    else if j < Offset(Foreground) then Metadata
    else if j < Offset(Detections) then Foreground
    else Detections
  }

  /** The sections tile the packet: every byte lies in exactly one section,
      and the sections lie inside the packet. */
  lemma SectionsTile(j: nat, s: Section)
    requires j < PacketSize
    ensures Offset(s) + Size(s) <= PacketSize
    ensures Offset(s) <= j < Offset(s) + Size(s) <==> s == SectionAt(j)
  {
    PacketLayout();
  }

  /** The bytes of section `s` in a read, which must hold a whole packet. */
  function SectionBytes(rx: seq<Byte>, s: Section): (bytes: seq<Byte>)
    requires |rx| >= PacketSize
    ensures |bytes| == Size(s)
  {
    PacketLayout();
    rx[Offset(s) .. Offset(s) + Size(s)]
  }

  /** A packet is its four sections in declaration order. */
  lemma PacketIsSections(rx: seq<Byte>)
    requires |rx| >= PacketSize
    ensures rx[..PacketSize] == SectionBytes(rx, Thermal) + SectionBytes(rx, Metadata)
                               + SectionBytes(rx, Foreground) + SectionBytes(rx, Detections)
  {
    PacketLayout();
    var p := rx[..PacketSize];
    assert p == p[..602] + p[602..860] + p[860..1462] + p[1462..];
  }

  // ---------------------------------------------------------------------------
  // The CRC field of a section
  // ---------------------------------------------------------------------------

  /** All bytes of a section except its trailing crc field. */
  function CrcInput(section: seq<Byte>): seq<Byte>
    requires |section| >= CrcBytes
  {
    section[..|section| - CrcBytes]
  }

  /** The little-endian u16 in the trailing crc field. */
  function StoredCrc(section: seq<Byte>): nat
    requires |section| >= CrcBytes
  {
    LeUnsigned(section[|section| - CrcBytes..])
  }

  /** The checksum the configured calculator computes over `data`. */
  function Checksum(data: seq<Byte>): (c: nat)
    ensures c < Pow2(8 * CrcBytes)
  {
    Pow2Values();
    Crc16.Crc(Octets(data)) as int
  }

  /** A section passes its check when the recomputed checksum equals the
      stored one. */
  predicate SectionValid(section: seq<Byte>)
    requires |section| >= CrcBytes
  {
    Checksum(CrcInput(section)) == StoredCrc(section)
  }

  /** The valid sections are exactly the payloads followed by the
      little-endian encoding of their checksum; in particular sealing any
      payload, the empty one included, gives a valid section. */
  lemma SealedIffValid(section: seq<Byte>)
    requires |section| >= CrcBytes
    ensures SectionValid(section) <==> section == CrcInput(section) + LeBytes(Checksum(CrcInput(section)), CrcBytes)
  {
    var payload, field := CrcInput(section), section[|section| - CrcBytes..];
    assert section == payload + field;
    LeBijection(field, Checksum(payload));
  }

  lemma SealValid(payload: seq<Byte>)
    ensures SectionValid(payload + LeBytes(Checksum(payload), CrcBytes))
  {
    var section := payload + LeBytes(Checksum(payload), CrcBytes);
    assert CrcInput(section) == payload;
    assert section[|section| - CrcBytes..] == LeBytes(Checksum(payload), CrcBytes);
    LeUnsignedOfBytes(Checksum(payload), CrcBytes);
  }

  /** Changing any one byte of a valid section, in the payload or in the crc
      field, makes it fail its check. */
  lemma CorruptedSectionFails(section: seq<Byte>, k: nat, v: Byte)
    requires |section| >= CrcBytes && SectionValid(section)
    requires k < |section| && v != section[k]
    ensures !SectionValid(section[k := v])
  {
    if k < |section| - CrcBytes {
      CorruptedPayloadFails(section, k, v);
    } else {
      CorruptedFieldFails(section, k, v);
    }
  }

  lemma CorruptedPayloadFails(section: seq<Byte>, k: nat, v: Byte)
    requires |section| >= CrcBytes
    requires k < |section| - CrcBytes && v != section[k]
    ensures Checksum(CrcInput(section[k := v])) != Checksum(CrcInput(section))
    ensures StoredCrc(section[k := v]) == StoredCrc(section)
  {
    var p := CrcInput(section);
    UpdatePayload(section, k, v);
    OneOctetChanged(p, k, v);
    Crc16.DetectsOneByteChange(Octets(p), Octets(p[k := v]), k);
    ChecksumValues(Crc16.Crc(Octets(p)), Crc16.Crc(Octets(p[k := v])));
  }

  /** Changing a payload byte changes that byte of the payload and leaves
      the crc field alone. */
  lemma UpdatePayload(section: seq<Byte>, k: nat, v: Byte)
    requires |section| >= CrcBytes && k < |section| - CrcBytes
    ensures CrcInput(section[k := v]) == CrcInput(section)[k := v]
    ensures StoredCrc(section[k := v]) == StoredCrc(section)
  {
    var n := |section| - CrcBytes;
    assert section[k := v][n..] == section[n..];
  }

  lemma ChecksumValues(a: bv16, b: bv16)
    requires a != b
    ensures a as int != b as int
  {
    WordValue(a);
    WordValue(b);
  }

  lemma WordValue(a: bv16)
    ensures (a as int) as bv16 == a
  {
  }

  lemma CorruptedFieldFails(section: seq<Byte>, k: nat, v: Byte)
    requires |section| >= CrcBytes
    requires |section| - CrcBytes <= k < |section| && v != section[k]
    ensures CrcInput(section[k := v]) == CrcInput(section)
    ensures StoredCrc(section[k := v]) != StoredCrc(section)
  {
    var n := |section| - CrcBytes;
    var f, g := section[n..], section[k := v][n..];
    assert g[k - n] != f[k - n];
    if LeUnsigned(f) == LeUnsigned(g) {
      LeUnsignedInjective(f, g);
    }
  }

  // ---------------------------------------------------------------------------
  // Section records
  // ---------------------------------------------------------------------------

  /** One CV detection. The three c_float members are carried as their raw
      IEEE-754 bit patterns. */
  datatype CvDetection = CvDetection(
    id: Byte,
    blobLabel: Byte,  // `label`, a reserved word in Dafny
    temperatureCentreLocationX: Byte,
    temperatureCentreLocationY: Byte,
    framesSinceMotion: nat,
    peakTemperature: nat,
    footPositionEstimateX: nat,
    footPositionEstimateY: nat)

  /** The member sizes of CvDetection in declaration order: four c_uint8,
      one c_uint32 and three c_float. */
  const DetectionMemberSizes: seq<nat> := [1, 1, 1, 1, 4, 4, 4, 4]

  /** Where member `k` starts in a `_pack_ = 1` structure: right after the
      members before it. */
  function MemberOffset(sizes: seq<nat>, k: nat): nat
    requires k <= |sizes|
  {
    if k == 0 then 0 else MemberOffset(sizes, k - 1) + sizes[k - 1]
  }

  /** CvDetection's members start at bytes 0, 1, 2, 3, 4, 8, 12 and 16, and
      the structure is 20 bytes with no padding. */
  lemma DetectionPacking()
    ensures forall k :: 0 <= k <= |DetectionMemberSizes| ==>
      MemberOffset(DetectionMemberSizes, k) == [0, 1, 2, 3, 4, 8, 12, 16, 20][k]
    ensures MemberOffset(DetectionMemberSizes, |DetectionMemberSizes|) == DetectionBytes
  {
    var z := DetectionMemberSizes;
    assert MemberOffset(z, 1) == 1;
    assert MemberOffset(z, 2) == 2;
    assert MemberOffset(z, 3) == 3;
    assert MemberOffset(z, 4) == 4;
    assert MemberOffset(z, 5) == 8;
    assert MemberOffset(z, 6) == 12;
    assert MemberOffset(z, 7) == 16;
    assert MemberOffset(z, 8) == 20;
  }

  /** Member `k` of a packed record, read little-endian. */
  function Member(b: seq<Byte>, sizes: seq<nat>, k: nat): (v: nat)
    requires k < |sizes| && MemberOffset(sizes, |sizes|) <= |b|
  {
    MemberOffsetMonotone(sizes, k + 1, |sizes|);
    LeUnsigned(b[MemberOffset(sizes, k) .. MemberOffset(sizes, k + 1)])
  }

  lemma {:induction false} MemberOffsetMonotone(sizes: seq<nat>, j: nat, k: nat)
    requires j <= k <= |sizes|
    ensures MemberOffset(sizes, j) <= MemberOffset(sizes, k)
    decreases k
  {
    if j < k {
      MemberOffsetMonotone(sizes, j, k - 1);
    }
  }

  /** ctypes' reading of one CvDetection from its 20 bytes. */
  function DecodeDetection(b: seq<Byte>): (d: CvDetection)
    requires |b| == DetectionBytes
    ensures d.id == b[0] && d.blobLabel == b[1]
    ensures d.temperatureCentreLocationX == b[2] && d.temperatureCentreLocationY == b[3]
    ensures d.framesSinceMotion == LeUnsigned(b[4..8])
    ensures d.peakTemperature == LeUnsigned(b[8..12])
    ensures d.footPositionEstimateX == LeUnsigned(b[12..16])
    ensures d.footPositionEstimateY == LeUnsigned(b[16..20])
  {
    DetectionPacking();
    var z := DetectionMemberSizes;
    assert b[0..1] == [b[0]] && b[1..2] == [b[1]] && b[2..3] == [b[2]] && b[3..4] == [b[3]];
    Pow2Values();
    CvDetection(Member(b, z, 0), Member(b, z, 1), Member(b, z, 2), Member(b, z, 3),
                Member(b, z, 4), Member(b, z, 5), Member(b, z, 6), Member(b, z, 7))
  }

  /** Decoding a detection loses nothing: different bytes give different
      detections. */
  lemma DetectionDecodeInjective(b1: seq<Byte>, b2: seq<Byte>)
    requires |b1| == |b2| == DetectionBytes
    requires DecodeDetection(b1) == DecodeDetection(b2)
    ensures b1 == b2
  {
    LeUnsignedInjective(b1[4..8], b2[4..8]);
    LeUnsignedInjective(b1[8..12], b2[8..12]);
    LeUnsignedInjective(b1[12..16], b2[12..16]);
    LeUnsignedInjective(b1[16..20], b2[16..20]);
    assert b1 == b1[..4] + b1[4..8] + b1[8..12] + b1[12..16] + b1[16..20];
    assert b2 == b2[..4] + b2[4..8] + b2[8..12] + b2[12..16] + b2[16..20];
  }

  /** SpiThermalPacket and SpiCvForegroundPacket: 300 c_int16 samples and the crc. */
  datatype FrameSection = FrameSection(samples: seq<int>, crc: nat)
  /** SpiMetadataPacket: the 64 words of the register map and the crc. The
      fields of the map are what Registers.DecodeWords reads from the words. */
  datatype MetadataSection = MetadataSection(metadata: seq<Registers.Word>, crc: nat)
  /** SpiCvDetectionsPacket: 21 detections and the crc. */
  datatype DetectionsSection = DetectionsSection(detections: seq<CvDetection>, crc: nat)

  datatype SpiPacket = SpiPacket(
    thermalFrame: FrameSection,
    metadata: MetadataSection,
    cvForeground: FrameSection,
    cvDetections: DetectionsSection)

  /** from_buffer_copy refuses a buffer shorter than the structure. */
  datatype ParseError = BufferTooShort(length: nat)

  function DecodeFrame(b: seq<Byte>): (f: FrameSection)
    requires |b| == 2 * NumPixels + CrcBytes
    ensures |f.samples| == NumPixels
    ensures forall i :: 0 <= i < NumPixels ==> f.samples[i] == LeInt16(b[2 * i .. 2 * i + 2])
    ensures forall i :: 0 <= i < NumPixels ==> -32768 <= f.samples[i] < 32768
    ensures f.crc == StoredCrc(b)
  {
    FrameSection(seq(NumPixels, i requires 0 <= i < NumPixels => LeInt16(b[2 * i .. 2 * i + 2])), StoredCrc(b))
  }

  function DecodeMetadata(b: seq<Byte>): (m: MetadataSection)
    requires |b| == RegisterMapBytes + CrcBytes
    ensures |m.metadata| == Registers.NumRegisters
    ensures m.crc == StoredCrc(b)
  {
    MetadataSection(Registers.Words(b[..RegisterMapBytes]), StoredCrc(b))
  }

  function DecodeDetections(b: seq<Byte>): (d: DetectionsSection)
    requires |b| == DetectionBytes * MaxNumDetections + CrcBytes
    ensures |d.detections| == MaxNumDetections
    ensures forall i :: 0 <= i < MaxNumDetections ==>
      d.detections[i] == DecodeDetection(b[DetectionBytes * i .. DetectionBytes * i + DetectionBytes])
    ensures d.crc == StoredCrc(b)
  {
    DetectionsSection(
      seq(MaxNumDetections, i requires 0 <= i < MaxNumDetections =>
        DecodeDetection(b[DetectionBytes * i .. DetectionBytes * i + DetectionBytes])),
      StoredCrc(b))
  }

  /** SpiPacket.from_buffer_copy: a read holding at least a whole packet is
      decoded from its first PacketSize bytes; a shorter one is refused. */
  function ParsePacket(rx: seq<Byte>): (r: Result<SpiPacket, ParseError>)
    ensures r.Success? <==> |rx| >= PacketSize
    ensures r.Failure? ==> r.error == BufferTooShort(|rx|)
  {
    if |rx| < PacketSize then Failure(BufferTooShort(|rx|))
    else
      PacketLayout();
      Success(SpiPacket(
        DecodeFrame(SectionBytes(rx, Thermal)),
        DecodeMetadata(SectionBytes(rx, Metadata)),
        DecodeFrame(SectionBytes(rx, Foreground)),
        DecodeDetections(SectionBytes(rx, Detections))))
  }

  /** Only the first PacketSize bytes of a read are interpreted. */
  lemma ParseReadsPrefix(rx: seq<Byte>, tail: seq<Byte>)
    requires |rx| == PacketSize
    ensures ParsePacket(rx + tail) == ParsePacket(rx)
  {
    PacketLayout();
    var long := rx + tail;
    assert SectionBytes(long, Thermal) == SectionBytes(rx, Thermal);
    assert SectionBytes(long, Metadata) == SectionBytes(rx, Metadata);
    assert SectionBytes(long, Foreground) == SectionBytes(rx, Foreground);
    assert SectionBytes(long, Detections) == SectionBytes(rx, Detections);
  }

  /** Sample i of the thermal frame is the c_int16 at bytes 2i and 2i+1 of
      the read. */
  lemma ParsedThermalSample(rx: seq<Byte>, i: nat)
    requires |rx| >= PacketSize && i < NumPixels
    ensures ParsePacket(rx).Success? && PacketSize == 1884
    ensures ParsePacket(rx).value.thermalFrame.samples[i] == LeInt16(rx[2 * i .. 2 * i + 2])
  {
    PacketLayout();
    var section := SectionBytes(rx, Thermal);
    assert section == rx[0 .. 602];
    assert ParsePacket(rx).value.thermalFrame == DecodeFrame(section);
    SliceOfSlice(rx, 0, 602, 2 * i, 2 * i + 2);
  }

  /** Sample i of the CV foreground is the c_int16 at bytes 860+2i and 861+2i
      of the read. */
  lemma ParsedForegroundSample(rx: seq<Byte>, i: nat)
    requires |rx| >= PacketSize && i < NumPixels
    ensures ParsePacket(rx).Success? && PacketSize == 1884
    ensures ParsePacket(rx).value.cvForeground.samples[i] == LeInt16(rx[860 + 2 * i .. 860 + 2 * i + 2])
  {
    PacketLayout();
    var section := SectionBytes(rx, Foreground);
    assert section == rx[860 .. 1462];
    assert ParsePacket(rx).value.cvForeground == DecodeFrame(section);
    SliceOfSlice(rx, 860, 1462, 2 * i, 2 * i + 2);
  }

  /** Detection i is decoded from bytes 1462+20i .. 1481+20i of the read. */
  lemma ParsedDetection(rx: seq<Byte>, i: nat)
    requires |rx| >= PacketSize && i < MaxNumDetections
    ensures ParsePacket(rx).Success? && PacketSize == 1884
    ensures ParsePacket(rx).value.cvDetections.detections[i] == DecodeDetection(rx[1462 + 20 * i .. 1462 + 20 * i + 20])
  {
    PacketLayout();
    var section := SectionBytes(rx, Detections);
    assert section == rx[1462 .. 1884];
    assert ParsePacket(rx).value.cvDetections == DecodeDetections(section);
    SliceOfSlice(rx, 1462, 1884, 20 * i, 20 * i + 20);
  }

  /** The parsed arrays keep the order of the read: every sample and every
      detection comes from its own bytes at its absolute offset. */
  lemma ParsedContents(rx: seq<Byte>)
    requires |rx| >= PacketSize
    ensures ParsePacket(rx).Success? && PacketSize == 1884
    ensures forall i :: 0 <= i < NumPixels ==>
      ParsePacket(rx).value.thermalFrame.samples[i] == LeInt16(rx[2 * i .. 2 * i + 2]) &&
      ParsePacket(rx).value.cvForeground.samples[i] == LeInt16(rx[860 + 2 * i .. 860 + 2 * i + 2])
    ensures forall i :: 0 <= i < MaxNumDetections ==>
      ParsePacket(rx).value.cvDetections.detections[i] == DecodeDetection(rx[1462 + 20 * i .. 1462 + 20 * i + 20])
  {
    PacketLayout();
    forall i | 0 <= i < NumPixels
      ensures ParsePacket(rx).value.thermalFrame.samples[i] == LeInt16(rx[2 * i .. 2 * i + 2])
      ensures ParsePacket(rx).value.cvForeground.samples[i] == LeInt16(rx[860 + 2 * i .. 860 + 2 * i + 2])
    {
      ParsedThermalSample(rx, i);
      ParsedForegroundSample(rx, i);
    }
    forall i | 0 <= i < MaxNumDetections
      ensures ParsePacket(rx).value.cvDetections.detections[i] == DecodeDetection(rx[1462 + 20 * i .. 1462 + 20 * i + 20])
    {
      ParsedDetection(rx, i);
    }
  }

  lemma FrameDecodeInjective(b1: seq<Byte>, b2: seq<Byte>)
    requires |b1| == |b2| == 2 * NumPixels + CrcBytes
    requires DecodeFrame(b1) == DecodeFrame(b2)
    ensures b1 == b2
  {
    var n := 2 * NumPixels;
    forall j | 0 <= j < n ensures b1[j] == b2[j] {
      SampleBytesEqual(b1, b2, j);
    }
    LeUnsignedInjective(b1[n..], b2[n..]);
    assert b1 == b1[..n] + b1[n..];
    assert b2 == b2[..n] + b2[n..];
  }

  /** Equal samples come from equal bytes. */
  lemma SampleBytesEqual(b1: seq<Byte>, b2: seq<Byte>, j: nat)
    requires |b1| == |b2| == 2 * NumPixels + CrcBytes && j < 2 * NumPixels
    requires DecodeFrame(b1).samples == DecodeFrame(b2).samples
    ensures b1[j] == b2[j]
  {
    var i := j / 2;
    RecordIndex(j, 2, NumPixels);
    var c1, c2 := b1[2 * i .. 2 * i + 2], b2[2 * i .. 2 * i + 2];
    assert DecodeFrame(b1).samples[i] == LeInt16(c1);
    assert DecodeFrame(b2).samples[i] == LeInt16(c2);
    LeInt16Injective(c1, c2);
    assert b1[j] == c1[j - 2 * i];
    assert b2[j] == c2[j - 2 * i];
  }

  lemma MetadataDecodeInjective(b1: seq<Byte>, b2: seq<Byte>)
    requires |b1| == |b2| == RegisterMapBytes + CrcBytes
    requires DecodeMetadata(b1) == DecodeMetadata(b2)
    ensures b1 == b2
  {
    var n := RegisterMapBytes;
    Registers.WordsInjective(b1[..n], b2[..n]);
    LeUnsignedInjective(b1[n..], b2[n..]);
    assert b1 == b1[..n] + b1[n..];
    assert b2 == b2[..n] + b2[n..];
  }

  lemma DetectionsDecodeInjective(b1: seq<Byte>, b2: seq<Byte>)
    requires |b1| == |b2| == DetectionBytes * MaxNumDetections + CrcBytes
    requires DecodeDetections(b1) == DecodeDetections(b2)
    ensures b1 == b2
  {
    var n := DetectionBytes * MaxNumDetections;
    forall j | 0 <= j < n ensures b1[j] == b2[j] {
      DetectionBytesEqual(b1, b2, j);
    }
    LeUnsignedInjective(b1[n..], b2[n..]);
    assert b1 == b1[..n] + b1[n..];
    assert b2 == b2[..n] + b2[n..];
  }

  /** Byte `j` of an array of `count` records of `size` bytes lies in record
      j / size. */
  lemma RecordIndex(j: nat, size: nat, count: nat)
    requires 0 < size && j < size * count
    ensures j / size < count
    ensures size * (j / size) <= j < size * (j / size) + size
  {
  }

  /** Equal detection records come from equal bytes. */
  lemma DetectionBytesEqual(b1: seq<Byte>, b2: seq<Byte>, j: nat)
    requires |b1| == |b2| == DetectionBytes * MaxNumDetections + CrcBytes && j < DetectionBytes * MaxNumDetections
    requires DecodeDetections(b1).detections == DecodeDetections(b2).detections
    ensures b1[j] == b2[j]
  {
    var i := j / DetectionBytes;
    RecordIndex(j, DetectionBytes, MaxNumDetections);
    var c1 := b1[DetectionBytes * i .. DetectionBytes * i + DetectionBytes];
    var c2 := b2[DetectionBytes * i .. DetectionBytes * i + DetectionBytes];
    assert DecodeDetections(b1).detections[i] == DecodeDetection(c1);
    assert DecodeDetections(b2).detections[i] == DecodeDetection(c2);
    DetectionDecodeInjective(c1, c2);
    assert b1[j] == c1[j - DetectionBytes * i];
    assert b2[j] == c2[j - DetectionBytes * i];
  }

  /** Parsing loses nothing: two transfers that parse to the same packet agree on
      their first PacketSize bytes. */
  lemma ParseInjective(rx1: seq<Byte>, rx2: seq<Byte>)
    requires |rx1| >= PacketSize && |rx2| >= PacketSize
    requires ParsePacket(rx1) == ParsePacket(rx2)
    ensures rx1[..PacketSize] == rx2[..PacketSize]
  {
    PacketLayout();
    FrameDecodeInjective(SectionBytes(rx1, Thermal), SectionBytes(rx2, Thermal));
    MetadataDecodeInjective(SectionBytes(rx1, Metadata), SectionBytes(rx2, Metadata));
    FrameDecodeInjective(SectionBytes(rx1, Foreground), SectionBytes(rx2, Foreground));
    DetectionsDecodeInjective(SectionBytes(rx1, Detections), SectionBytes(rx2, Detections));
    PacketIsSections(rx1);
    PacketIsSections(rx2);
  }

  /** The register fields of a parsed packet are the register map decoded
      from bytes 602-857 of the read. */
  lemma MetadataRegisters(rx: seq<Byte>)
    requires |rx| >= PacketSize
    ensures ParsePacket(rx).Success? && PacketSize == 1884
    ensures Registers.DecodeWords(ParsePacket(rx).value.metadata.metadata) == Registers.DecodeRegisterMap(rx[602..858])
  {
    PacketLayout();
    assert SectionBytes(rx, Metadata)[..RegisterMapBytes] == rx[602..858];
  }

  /** Each record's crc member is the stored crc of its section's bytes, so
      the byte-level check below is the check on the parsed packet. */
  lemma RecordCrcs(rx: seq<Byte>)
    requires |rx| >= PacketSize
    ensures ParsePacket(rx).Success?
    ensures ParsePacket(rx).value.thermalFrame.crc == StoredCrc(SectionBytes(rx, Thermal))
    ensures ParsePacket(rx).value.metadata.crc == StoredCrc(SectionBytes(rx, Metadata))
    ensures ParsePacket(rx).value.cvForeground.crc == StoredCrc(SectionBytes(rx, Foreground))
    ensures ParsePacket(rx).value.cvDetections.crc == StoredCrc(SectionBytes(rx, Detections))
  {
    PacketLayout();
  }

  // ---------------------------------------------------------------------------
  // Checking the sections of a read
  // ---------------------------------------------------------------------------

  /** A failed check, with the stored value ("Got") and the recomputed one
      ("Expected"). */
  datatype CrcFailure = CrcFailure(section: Section, got: nat, expected: nat)

  /** The outcome of checking section `s` of a read. */
  function Check(rx: seq<Byte>, s: Section): (r: Option<CrcFailure>)
    requires |rx| >= PacketSize
    ensures r.None? <==> SectionValid(SectionBytes(rx, s))
    ensures r.Some? ==> r.value.section == s && r.value.got != r.value.expected
  {
    var bytes := SectionBytes(rx, s);
    if SectionValid(bytes) then None
    else Some(CrcFailure(s, StoredCrc(bytes), Checksum(CrcInput(bytes))))
  }

  lemma CheckShape(rx: seq<Byte>, s: Section)
    requires |rx| >= PacketSize
    ensures Check(rx, s).None? <==> SectionValid(SectionBytes(rx, s))
    ensures Check(rx, s).Some? ==>
      Check(rx, s).value == CrcFailure(s, StoredCrc(SectionBytes(rx, s)), Checksum(CrcInput(SectionBytes(rx, s))))
  {
  }

  function Report(rx: seq<Byte>, s: Section): seq<CrcFailure>
    requires |rx| >= PacketSize
  {
    match Check(rx, s)
    case None => []
    case Some(f) => [f]
  }

  /** The failures the monitoring loop reports for one read, in check order. */
  function Reports(rx: seq<Byte>): (r: seq<CrcFailure>)
    requires |rx| >= PacketSize
    ensures |r| <= |CheckOrder|
  {
    Report(rx, Thermal) + Report(rx, Foreground) + Report(rx, Detections) + Report(rx, Metadata)
  }

  /** What the monitoring loop makes of one read: the failures, or the error
      that ends the loop. */
  function Diagnose(rx: seq<Byte>): Result<seq<CrcFailure>, ParseError> {
    if |rx| < PacketSize then Failure(BufferTooShort(|rx|)) else Success(Reports(rx))
  }

  /** The position of a section in the check order. */
  function Rank(s: Section): nat {
    match s
    case Thermal => 0
    case Foreground => 1
    case Detections => 2
    case Metadata => 3
  }

  /** Every section is checked whatever the others hold: a section is named
      in the reports exactly when it fails its check. */
  lemma ReportsComplete(rx: seq<Byte>, s: Section)
    requires |rx| >= PacketSize
    ensures (exists i :: 0 <= i < |Reports(rx)| && Reports(rx)[i].section == s) <==> !SectionValid(SectionBytes(rx, s))
  {
    ReportsAccurate(rx);
    if !SectionValid(SectionBytes(rx, s)) {
      ReportShape(rx, s);
      var f := Report(rx, s)[0];
      assert f in Report(rx, s);
      assert f in Reports(rx);
    }
  }

  /** The single report a section can contribute. */
  lemma ReportShape(rx: seq<Byte>, s: Section)
    requires |rx| >= PacketSize
    ensures |Report(rx, s)| == (if SectionValid(SectionBytes(rx, s)) then 0 else 1)
    ensures forall f :: f in Report(rx, s) ==>
      f.section == s &&
      f.got == StoredCrc(SectionBytes(rx, s)) &&
      f.expected == Checksum(CrcInput(SectionBytes(rx, s))) &&
      f.got != f.expected
  {
  }

  /** Each report names a failing section with its stored ("Got") and its
      recomputed ("Expected") checksum. */
  lemma ReportsAccurate(rx: seq<Byte>)
    requires |rx| >= PacketSize
    ensures |Reports(rx)| <= |CheckOrder|
    ensures forall f :: f in Reports(rx) ==>
      f.got == StoredCrc(SectionBytes(rx, f.section)) &&
      f.expected == Checksum(CrcInput(SectionBytes(rx, f.section))) &&
      f.got != f.expected
  {
    ReportShape(rx, Thermal);
    ReportShape(rx, Foreground);
    ReportShape(rx, Detections);
    ReportShape(rx, Metadata);
  }

  /** Reports follow the check order. */
  lemma ReportsOrdered(rx: seq<Byte>)
    requires |rx| >= PacketSize
    ensures forall i, j :: 0 <= i < j < |Reports(rx)| ==> Rank(Reports(rx)[i].section) < Rank(Reports(rx)[j].section)
  {
    var a, b, c, d := Report(rx, Thermal), Report(rx, Foreground), Report(rx, Detections), Report(rx, Metadata);
    ReportShape(rx, Thermal);
    ReportShape(rx, Foreground);
    ReportShape(rx, Detections);
    ReportShape(rx, Metadata);
    RanksGrow(a, b, Thermal, Foreground);
    RanksGrow(a + b, c, Foreground, Detections);
    RanksGrow(a + b + c, d, Detections, Metadata);
  }

  /** Sections in strictly increasing rank, all at most `last`. */
  predicate RankedUpTo(r: seq<CrcFailure>, last: Section) {
    (forall i, j :: 0 <= i < j < |r| ==> Rank(r[i].section) < Rank(r[j].section)) &&
    (forall i :: 0 <= i < |r| ==> Rank(r[i].section) <= Rank(last))
  }

  lemma RanksGrow(r: seq<CrcFailure>, next: seq<CrcFailure>, last: Section, s: Section)
    requires RankedUpTo(r, last) && Rank(last) < Rank(s)
    requires |next| <= 1 && forall f :: f in next ==> f.section == s
    ensures RankedUpTo(r + next, s)
  {
    if |next| == 1 {
      assert next[0] in next;
    }
  }

  /** All four sections of a read pass their checks. */
  predicate AllValid(rx: seq<Byte>)
    requires |rx| >= PacketSize
  {
    forall s: Section :: SectionValid(SectionBytes(rx, s))
  }

  lemma AllValidCases(rx: seq<Byte>)
    requires |rx| >= PacketSize
    ensures AllValid(rx) <==>
      SectionValid(SectionBytes(rx, Thermal)) && SectionValid(SectionBytes(rx, Foreground)) &&
      SectionValid(SectionBytes(rx, Detections)) && SectionValid(SectionBytes(rx, Metadata))
  {
  }

  /** A read is clean exactly when all four sections pass. */
  lemma NoReportsIffAllValid(rx: seq<Byte>)
    requires |rx| >= PacketSize
    ensures Reports(rx) == [] <==> AllValid(rx)
  {
    ReportShape(rx, Thermal);
    ReportShape(rx, Foreground);
    ReportShape(rx, Detections);
    ReportShape(rx, Metadata);
    AllValidCases(rx);
  }

  /** A single corrupted byte anywhere in a clean packet is reported, and
      only for the section that holds it. */
  lemma SingleByteErrorReported(rx: seq<Byte>, j: nat, v: Byte)
    requires |rx| >= PacketSize && AllValid(rx)
    requires j < PacketSize && v != rx[j]
    ensures |Reports(rx[j := v])| == 1
    ensures Reports(rx[j := v])[0].section == SectionAt(j)
  {
    var bad := rx[j := v];
    CorruptionConfined(rx, j, v, Thermal);
    CorruptionConfined(rx, j, v, Foreground);
    CorruptionConfined(rx, j, v, Detections);
    CorruptionConfined(rx, j, v, Metadata);
    ReportShape(bad, Thermal);
    ReportShape(bad, Foreground);
    ReportShape(bad, Detections);
    ReportShape(bad, Metadata);
    var r := Report(bad, SectionAt(j));
    assert r[0] in r;
  }

  /** Changing byte `j` of a read changes the outcome of exactly the check of
      the section holding it, which then fails. */
  lemma CorruptionConfined(rx: seq<Byte>, j: nat, v: Byte, s: Section)
    requires |rx| >= PacketSize && SectionValid(SectionBytes(rx, s))
    requires j < PacketSize && v != rx[j]
    ensures SectionValid(SectionBytes(rx[j := v], s)) <==> s != SectionAt(j)
  {
    SectionsTile(j, s);
    var o := Offset(s);
    if s == SectionAt(j) {
      assert SectionBytes(rx[j := v], s) == SectionBytes(rx, s)[j - o := v];
      CorruptedSectionFails(SectionBytes(rx, s), j - o, v);
    } else {
      assert SectionBytes(rx[j := v], s) == SectionBytes(rx, s);
    }
  }

  /** One check step: recompute the checksum of a section with the bitwise
      engine and compare it with the stored one. */
  method CheckSection(rx: seq<Byte>, s: Section) returns (failure: Option<CrcFailure>)
    requires |rx| >= PacketSize
    ensures failure == Check(rx, s)
  {
    var bytes := SectionBytes(rx, s);
    var computed := Crc16.Compute(Octets(CrcInput(bytes)));
    var got := StoredCrc(bytes);
    if computed as int != got {
      failure := Some(CrcFailure(s, got, computed as int));
    } else {
      failure := None;
    }
  }

  /** One iteration of the monitoring loop: parse the read, then check all
      four sections in check order, recording every failure. */
  method CheckPacket(rx: seq<Byte>) returns (result: Result<seq<CrcFailure>, ParseError>)
    ensures result == Diagnose(rx)
  {
    if |rx| < PacketSize {
      return Failure(BufferTooShort(|rx|));
    }
    var reports: seq<CrcFailure> := [];
    var f := CheckSection(rx, Thermal);
    if f.Some? { reports := reports + [f.value]; }
    assert reports == Report(rx, Thermal);
    f := CheckSection(rx, Foreground);
    if f.Some? { reports := reports + [f.value]; }
    assert reports == Report(rx, Thermal) + Report(rx, Foreground);
    f := CheckSection(rx, Detections);
    if f.Some? { reports := reports + [f.value]; }
    assert reports == Report(rx, Thermal) + Report(rx, Foreground) + Report(rx, Detections);
    f := CheckSection(rx, Metadata);
    if f.Some? { reports := reports + [f.value]; }
    assert reports == Reports(rx);
    result := Success(reports);
  }

  /** The monitoring loop over a sequence of transfers: every read is checked in
      turn until one is too short to parse, which ends the loop. */
  method Monitor(transfers: seq<seq<Byte>>) returns (log: seq<seq<CrcFailure>>, stopped: Option<ParseError>)
    ensures |log| <= |transfers|
    ensures forall i :: 0 <= i < |log| ==> |transfers[i]| >= PacketSize && log[i] == Reports(transfers[i])
    ensures stopped.None? <==> |log| == |transfers|
    ensures stopped.Some? ==> |transfers[|log|]| < PacketSize && stopped.value == BufferTooShort(|transfers[|log|]|)
  {
    log := [];
    var i := 0;
    while i < |transfers|
      invariant 0 <= i <= |transfers| && |log| == i
      invariant Logged(transfers, log)
    {
      var r := CheckPacket(transfers[i]);
      if r.Failure? {
        return log, Some(r.error);
      }
      DiagnosedReports(transfers[i], r.value);
      LoggedAppend(transfers, log, r.value);
      log := log + [r.value];
      i := i + 1;
    }
    stopped := None;
  }

  /** `log` holds the reports of the first |log| transfers, all of which
      parsed. */
  predicate Logged(transfers: seq<seq<Byte>>, log: seq<seq<CrcFailure>>) {
    |log| <= |transfers| &&
    forall k :: 0 <= k < |log| ==> |transfers[k]| >= PacketSize && log[k] == Reports(transfers[k])
  }

  lemma LoggedAppend(transfers: seq<seq<Byte>>, log: seq<seq<CrcFailure>>, r: seq<CrcFailure>)
    requires Logged(transfers, log) && |log| < |transfers|
    requires |transfers[|log|]| >= PacketSize && r == Reports(transfers[|log|])
    ensures Logged(transfers, log + [r])
  {
    LoggedKeep(transfers, log, r);
    assert (log + [r])[|log|] == r;
  }

  lemma LoggedKeep(transfers: seq<seq<Byte>>, log: seq<seq<CrcFailure>>, r: seq<CrcFailure>)
    requires Logged(transfers, log)
    ensures forall k :: 0 <= k < |log| ==> |transfers[k]| >= PacketSize && (log + [r])[k] == Reports(transfers[k])
  {
  }

  lemma DiagnosedReports(rx: seq<Byte>, r: seq<CrcFailure>)
    requires Diagnose(rx) == Success(r)
    ensures |rx| >= PacketSize && r == Reports(rx)
  {
  }
}

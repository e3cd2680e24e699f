/** The live display. On every animation frame it reads one packet and checks
    the sections in the check order, giving up on the frame at the first
    failure. Only when all four checks pass does it list the detections and
    replace the thermal and CV-foreground heatmaps with the new frames. */
module Player {
  import opened Wrappers
  import opened Bytes
  import opened Spi

  /** The display asks the device for exactly one packet per frame. */
  const RequestLength: nat := PacketSize

  /** A heatmap image: PixelHeight rows of PixelWidth cells. */
  type Grid = seq<seq<real>>

  /** The value a cell shows for a sample. The samples are <8,8> fixed point.
      Every int16 divided by 256 is exact in float32, so the image holds
      exactly this quotient. */
  function Temperature(sample: int): (t: real)
    ensures t * 256.0 == sample as real
  {
    sample as real / 256.0
  }

  predicate IsImage(g: Grid) {
    |g| == PixelHeight && forall r :: 0 <= r < |g| ==> |g[r]| == PixelWidth
  }

  /** The initial image: all zeros. */
  function Blank(): (g: Grid)
    ensures IsImage(g)
    ensures forall r, c :: 0 <= r < PixelHeight && 0 <= c < PixelWidth ==> g[r][c] == 0.0
  {
    seq(PixelHeight, r => seq(PixelWidth, c => 0.0))
  }

  /** The samples scaled to temperatures and reshaped to PixelHeight x
      PixelWidth, the way numpy reshapes a C-ordered array. */
  function Heatmap(samples: seq<int>): (g: Grid)
    requires |samples| == NumPixels
    ensures IsImage(g)
  {
    seq(PixelHeight, r requires 0 <= r < PixelHeight =>
      seq(PixelWidth, c requires 0 <= c < PixelWidth => Temperature(samples[r * PixelWidth + c])))
  }

  /** An image read row after row. */
  function Flatten(g: Grid): seq<real> {
    if |g| == 0 then [] else Flatten(g[..|g| - 1]) + g[|g| - 1]
  }

  /** Every sample is shown once, in cell (i / PixelWidth, i % PixelWidth). */
  lemma HeatmapCell(samples: seq<int>, i: nat)
    requires |samples| == NumPixels && i < NumPixels
    ensures Heatmap(samples)[i / PixelWidth][i % PixelWidth] == Temperature(samples[i])
  {
  }

  /** The heatmap is row-major: reading its rows one after the other gives
      back the scaled samples in their original order. */
  lemma FlattenHeatmap(samples: seq<int>)
    requires |samples| == NumPixels
    ensures Flatten(Heatmap(samples)) == seq(NumPixels, i requires 0 <= i < NumPixels => Temperature(samples[i]))
  {
    var g := Heatmap(samples);
    FlattenRows(samples, PixelHeight);
    assert g[..PixelHeight] == g;
  }

  lemma {:induction false} FlattenRows(samples: seq<int>, k: nat)
    requires |samples| == NumPixels && k <= PixelHeight
    ensures Flatten(Heatmap(samples)[..k]) == seq(PixelWidth * k, i requires 0 <= i < PixelWidth * k => Temperature(samples[i]))
  {
    var g := Heatmap(samples);
    if k > 0 {
      FlattenRows(samples, k - 1);
      assert g[..k][..k - 1] == g[..k - 1];
      var before := Flatten(g[..k - 1]);
      var row := g[k - 1];
      assert Flatten(g[..k]) == before + row;
      forall i | 0 <= i < PixelWidth * k
        ensures (before + row)[i] == Temperature(samples[i])
      {
        if i >= PixelWidth * (k - 1) {
          assert row[i - PixelWidth * (k - 1)] == Temperature(samples[(k - 1) * PixelWidth + (i - PixelWidth * (k - 1))]);
        }
      }
    }
  }

  // ---------------------------------------------------------------------------
  // The gate
  // ---------------------------------------------------------------------------

  /** What one animation frame does with a read. */
  datatype Outcome =
      /** from_buffer_copy raised: the read was shorter than a packet. */
    | Unreadable(error: ParseError)
      /** A check failed: it is reported and the frame returns early. */
    | Rejected(failure: CrcFailure)
      /** All four checks passed: the detections are listed and both
          heatmaps are replaced. */
    | Displayed(detections: seq<CvDetection>)

  /** The first section, in check order, whose check fails. */
  function FirstFailure(rx: seq<Byte>): Option<CrcFailure>
    requires |rx| >= PacketSize
  {
    if Check(rx, Thermal).Some? then Check(rx, Thermal)
    else if Check(rx, Foreground).Some? then Check(rx, Foreground)
    else if Check(rx, Detections).Some? then Check(rx, Detections)
    else Check(rx, Metadata)
  }

  /** The outcome of one frame. */
  function Gate(rx: seq<Byte>): (o: Outcome)
    ensures o.Unreadable? <==> |rx| < PacketSize
    ensures o.Rejected? ==> o.failure.got != o.failure.expected
  {
    match ParsePacket(rx)
    case Failure(e) => Unreadable(e)
    case Success(packet) =>
      match FirstFailure(rx)
      case Some(f) => Rejected(f)
      case None => Displayed(packet.cvDetections.detections)
  }

  /** A read is unreadable exactly when it is shorter than a packet; a read
      of the requested length never is. */
  lemma UnreadableIffShort(rx: seq<Byte>)
    ensures Gate(rx).Unreadable? <==> |rx| < RequestLength
    ensures Gate(rx).Unreadable? ==> Gate(rx).error == BufferTooShort(|rx|)
  {
  }

  /** The frame is displayed exactly when the read holds a packet all four of
      whose sections pass their checks; it then lists the packet's detections. */
  lemma DisplayedIffAllValid(rx: seq<Byte>)
    ensures Gate(rx).Displayed? <==> |rx| >= PacketSize && AllValid(rx)
    ensures Gate(rx).Displayed? ==> Gate(rx).detections == ParsePacket(rx).value.cvDetections.detections
  {
    if |rx| >= PacketSize {
      NoFailureIffAllValid(rx);
    }
  }

  lemma NoFailureIffAllValid(rx: seq<Byte>)
    requires |rx| >= PacketSize
    ensures FirstFailure(rx).None? <==> AllValid(rx)
  {
    CheckShape(rx, Thermal);
    CheckShape(rx, Foreground);
    CheckShape(rx, Detections);
    CheckShape(rx, Metadata);
    AllValidCases(rx);
  }

  /** A rejection names a failing section with its stored and recomputed
      checksums. */
  lemma RejectsFailingSection(rx: seq<Byte>)
    requires Gate(rx).Rejected?
    ensures |rx| >= PacketSize
    ensures var f := Gate(rx).failure;
      !SectionValid(SectionBytes(rx, f.section)) &&
      f.got == StoredCrc(SectionBytes(rx, f.section)) &&
      f.expected == Checksum(CrcInput(SectionBytes(rx, f.section)))
  {
    CheckShape(rx, Thermal);
    CheckShape(rx, Foreground);
    CheckShape(rx, Detections);
    CheckShape(rx, Metadata);
  }

  /** The rejected section is the first failing one of the check order: every
      section before it passed, and the ones after it are not looked at. */
  lemma RejectsFirstFailure(rx: seq<Byte>)
    requires Gate(rx).Rejected?
    ensures |rx| >= PacketSize
    ensures forall t: Section :: Rank(t) < Rank(Gate(rx).failure.section) ==> SectionValid(SectionBytes(rx, t))
  {
    GateRejects(rx);
    FirstFailureIsFirst(rx);
  }

  lemma GateRejects(rx: seq<Byte>)
    requires Gate(rx).Rejected?
    ensures |rx| >= PacketSize && FirstFailure(rx) == Some(Gate(rx).failure)
  {
  }

  lemma FirstFailureIsFirst(rx: seq<Byte>)
    requires |rx| >= PacketSize && FirstFailure(rx).Some?
    ensures forall t: Section :: Rank(t) < Rank(FirstFailure(rx).value.section) ==> SectionValid(SectionBytes(rx, t))
  {
    var first := FirstFailure(rx).value.section;
    forall t: Section | Rank(t) < Rank(first)
      ensures SectionValid(SectionBytes(rx, t))
    {
      assert Check(rx, t).None?;
    }
  }

  /** What a displayed frame shows is read straight from the transfer: cell
      (r, c) of the thermal image is the c_int16 at bytes 2(20r + c) and
      2(20r + c) + 1 divided by 256, and the same cell of the foreground image
      is the one 860 bytes further on. */
  lemma DisplayedCell(rx: seq<Byte>, r: nat, c: nat)
    requires |rx| >= PacketSize && r < PixelHeight && c < PixelWidth
    ensures ParsePacket(rx).Success? && PacketSize == 1884 && r * PixelWidth + c < NumPixels
    ensures var i := r * PixelWidth + c;
      Heatmap(ParsePacket(rx).value.thermalFrame.samples)[r][c] == Temperature(LeInt16(rx[2 * i .. 2 * i + 2])) &&
      Heatmap(ParsePacket(rx).value.cvForeground.samples)[r][c] == Temperature(LeInt16(rx[860 + 2 * i .. 860 + 2 * i + 2]))
  {
    var i := r * PixelWidth + c;
    ParsedThermalSample(rx, i);
    ParsedForegroundSample(rx, i);
    var packet := ParsePacket(rx).value;
    HeatmapAt(packet.thermalFrame.samples, r, c);
    HeatmapAt(packet.cvForeground.samples, r, c);
  }

  lemma HeatmapAt(samples: seq<int>, r: nat, c: nat)
    requires |samples| == NumPixels && r < PixelHeight && c < PixelWidth
    ensures r * PixelWidth + c < NumPixels
    ensures Heatmap(samples)[r][c] == Temperature(samples[r * PixelWidth + c])
  {
  }

  /** The display and the monitoring loop agree: a frame is rejected exactly
      when the monitoring loop would report a failure for the same read, and
      it is rejected for the first failure the monitoring loop reports. */
  lemma GateAgreesWithMonitor(rx: seq<Byte>)
    requires |rx| >= PacketSize
    ensures Gate(rx).Rejected? <==> Reports(rx) != []
    ensures Gate(rx).Rejected? ==> Gate(rx).failure == Reports(rx)[0]
  {
    CheckShape(rx, Thermal);
    CheckShape(rx, Foreground);
    CheckShape(rx, Detections);
    CheckShape(rx, Metadata);
  }

  /** The two images of the display. */
  class Display {
    var heatmap: Grid
    var cvForegroundHeatmap: Grid

    /** Both images start blank. */
    constructor()
      ensures heatmap == Blank() && cvForegroundHeatmap == Blank()
    {
      heatmap := Blank();
      cvForegroundHeatmap := Blank();
    }

    /** One animation frame: parse the read, run the four checks in check
        order with an early return at the first failure, and only then
        replace both images. */
    method Update(rx: seq<Byte>) returns (outcome: Outcome)
      modifies this
      ensures outcome == Gate(rx)
      ensures outcome.Displayed? ==>
        |rx| >= PacketSize &&
        heatmap == Heatmap(ParsePacket(rx).value.thermalFrame.samples) &&
        cvForegroundHeatmap == Heatmap(ParsePacket(rx).value.cvForeground.samples)
      ensures !outcome.Displayed? ==> heatmap == old(heatmap) && cvForegroundHeatmap == old(cvForegroundHeatmap)
    {
      var parsed := ParsePacket(rx);
      if parsed.Failure? {
        return Unreadable(parsed.error);
      }
      var packet := parsed.value;
      var f := CheckSection(rx, Thermal);
      if f.Some? {
        return Rejected(f.value);
      }
      f := CheckSection(rx, Foreground);
      if f.Some? {
        return Rejected(f.value);
      }
      f := CheckSection(rx, Detections);
      if f.Some? {
        return Rejected(f.value);
      }
      f := CheckSection(rx, Metadata);
      if f.Some? {
        return Rejected(f.value);
      }
      heatmap := Heatmap(packet.thermalFrame.samples);
      cvForegroundHeatmap := Heatmap(packet.cvForeground.samples);
      outcome := Displayed(packet.cvDetections.detections);
    }
  }
}

/** From the bytes of a file to centimetres: what the densities printed in a PNG, JFIF, TIFF or EXIF file make of its
    pixels. */
module ImageSize {
  import opened Common
  import opened Bytes
  import opened PhysicalSize
  import opened EmbeddedDpi
  import opened MetadataParser
  import Tiff
  import PngScan
  import JpegScan

  /** Pixels over density, for a density that counts per `scale` centimetres. */
  function Scaled(scale: real, width: nat, height: nat, x: real, y: real): PhysicalSizeCm
    requires x > 0.0 && y > 0.0
  {
    PhysicalSizeCm(scale * (width as real / x), scale * (height as real / y))
  }

  // ---------------------------------------------------------------- PNG

  /** What the code takes for a density: 1 to 100000 dots per inch. */
  predicate InRange(dpi: real) {
    1.0 <= dpi <= 100000.0
  }

  /** A pHYs chunk for so many pixels per unit; bytes behind its nine are allowed. */
  function PhysChunk(x: nat, y: nat, unit: Byte, extra: seq<Byte>, crc: seq<Byte>): (c: PngScan.Chunk)
    requires x < 0x1_0000_0000 && y < 0x1_0000_0000 && |extra| < 0x1_0000 && |crc| == 4
    ensures c.Valid() && c.name == PngScan.PHYS
  {
    PngScan.Chunk(PngScan.PHYS, PutU32(x, false) + PutU32(y, false) + [unit] + extra, crc)
  }

  lemma PhysIsRead(x: nat, y: nat, unit: Byte, extra: seq<Byte>, crc: seq<Byte>)
    requires x < 0x1_0000_0000 && y < 0x1_0000_0000 && |extra| < 0x1_0000 && |crc| == 4
    ensures PngScan.PhysVerdict(PhysChunk(x, y, unit, extra, crc).data) == DpiFromPhys(x, y, unit)
  {
    hide U32, PutU32;
    var data := PhysChunk(x, y, unit, extra, crc).data;
    assert data == [] + PutU32(x, false) + (PutU32(y, false) + [unit] + extra);
    assert data == PutU32(x, false) + PutU32(y, false) + ([unit] + extra);
    HoldsMiddle([], PutU32(x, false), PutU32(y, false) + [unit] + extra);
    HoldsMiddle(PutU32(x, false), PutU32(y, false), [unit] + extra);
    ReadU32(data, 0, x, false);
    ReadU32(data, 4, y, false);
  }

  lemma PngIsDetected(rest: seq<Byte>)
    ensures DetectContainerFormat(PngScan.SIGNATURE + rest) == PngContainer
  {
    hide HoldsSvgTag;
    var b := PngScan.SIGNATURE + rest;
    assert b[0] == 0x89 && b[1] == 'P' as int && b[2] == 'N' as int && b[3] == 'G' as int;
  }

  /** The answer for a pHYs chunk, and the size it gives: unit 1 is the metre, any other unit says nothing of inches. */
  predicate IsPhysAnswer(d: Dpi, x: nat, y: nat, unit: Byte, width: nat, height: nat) {
    var h, v := x as real * 0.0254, y as real * 0.0254;
    if unit != 1 then d == Dpi(false, 0.0, 0.0, PngPhys, NoPhysicalDpi)
    else if !InRange(h) || !InRange(v) then d == Dpi(false, 0.0, 0.0, PngPhys, InvalidDpi)
    else
      && d == Dpi(true, h, v, PngPhys, ResolutionFound) && x > 0 && y > 0
      && SizeFor(width, height, d) == Some(Scaled(100.0, width, height, x as real, y as real))
  }

  lemma PhysAnswer(x: nat, y: nat, unit: Byte, width: nat, height: nat)
    requires width > 0 && height > 0
    ensures IsPhysAnswer(DpiFromPhys(x, y, unit), x, y, unit, width, height)
  {
    hide CalculatePhysicalSizeCm;
    if DpiFromPhys(x, y, unit).found {
      PhysDensity(width, height, x, y);
    }
  }

  /** A PNG file whose first pHYs chunk stands behind any other chunks but image data. */
  lemma PngBytesToCentimetres(cs: seq<PngScan.Chunk>, x: nat, y: nat, unit: Byte, extra: seq<Byte>, crc: seq<Byte>,
      rest: seq<Byte>, width: nat, height: nat)
    requires PngScan.AllSkipped(cs) && |extra| < 0x1_0000 && |crc| == 4 && width > 0 && height > 0
    requires x < 0x1_0000_0000 && y < 0x1_0000_0000
    ensures IsPhysAnswer(
      EmbeddedDpiOf(PngScan.SIGNATURE + PngScan.PutChunks(cs) +
        (PngScan.PutChunk(PhysChunk(x, y, unit, extra, crc)) + rest)),
      x, y, unit, width, height)
  {
    hide DetectContainerFormat, PngScan.PngDpi, PngScan.PutChunk, PngScan.PhysVerdict, DpiFromPhys, IsPhysAnswer;
    var c := PhysChunk(x, y, unit, extra, crc);
    var tail := PngScan.PutChunk(c) + rest;
    Assoc(PngScan.SIGNATURE, PngScan.PutChunks(cs), tail);
    PngIsDetected(PngScan.PutChunks(cs) + tail);
    PhysStops(c, rest);
    PngScan.FirstPhysBeforeIdat(cs, tail);
    PhysIsRead(x, y, unit, extra, crc);
    PhysAnswer(x, y, unit, width, height);
  }

  /** A PNG file without a pHYs chunk before its image data, or one whose pHYs chunk is too short. */
  lemma PngWithoutDensity(cs: seq<PngScan.Chunk>, c: PngScan.Chunk, rest: seq<Byte>)
    requires PngScan.AllSkipped(cs) && c.Valid() && (c.name == PngScan.IDAT || (c.name == PngScan.PHYS && |c.data| < 9))
    ensures EmbeddedDpiOf(PngScan.SIGNATURE + PngScan.PutChunks(cs) + (PngScan.PutChunk(c) + rest)) ==
      if c.name == PngScan.IDAT then Dpi(false, 0.0, 0.0, EmbeddedDpi.Png, NoPhysicalDpi)
        else Dpi(false, 0.0, 0.0, PngPhys, Truncated)
  {
    hide DetectContainerFormat, PngScan.PngDpi, PngScan.PutChunk, U32;
    var tail := PngScan.PutChunk(c) + rest;
    Assoc(PngScan.SIGNATURE, PngScan.PutChunks(cs), tail);
    PngIsDetected(PngScan.PutChunks(cs) + tail);
    PngScan.ChunkReadBack([], c, rest);
    assert [] + PngScan.PutChunk(c) + rest == tail;
    PngScan.FirstPhysBeforeIdat(cs, tail);
  }

  lemma PhysStops(c: PngScan.Chunk, rest: seq<Byte>)
    requires c.Valid() && c.name == PngScan.PHYS
    ensures PngScan.Stops(PngScan.PutChunk(c) + rest)
    ensures PngScan.Verdict(PngScan.PutChunk(c) + rest) == PngScan.PhysVerdict(c.data)
  {
    hide U32, PngScan.PutChunk, PngScan.ChunkAt, PngScan.PhysVerdict;
    PngScan.ChunkReadBack([], c, rest);
    assert [] + PngScan.PutChunk(c) + rest == PngScan.PutChunk(c) + rest;
  }

  // ---------------------------------------------------------------- JFIF

  /** A JFIF segment with this unit and density; version and thumbnail may be anything. */
  function JfifSegment(version: seq<Byte>, unit: Byte, x: nat, y: nat, extra: seq<Byte>): (s: JpegScan.Segment)
    requires |version| == 2 && x < 0x1_0000 && y < 0x1_0000 && |extra| <= 0xFFFD - 12
    ensures s.marker == JpegScan.APP0 && |s.payload| == 12 + |extra|
  {
    JpegScan.Segment(JpegScan.APP0, JpegScan.JFIF + version + [unit] + PutU16(x, false) + PutU16(y, false) + extra)
  }

  lemma JfifIsRead(version: seq<Byte>, unit: Byte, x: nat, y: nat, extra: seq<Byte>)
    requires |version| == 2 && x < 0x1_0000 && y < 0x1_0000 && |extra| <= 0xFFFD - 12
    ensures JpegScan.JfifOf(JfifSegment(version, unit, x, y, extra)) == Some(DpiFromJfif(unit, x, y))
    ensures JpegScan.ExifOf(JfifSegment(version, unit, x, y, extra)) == None
  {
    hide U16, PutU16, DpiFromJfif, Tiff.ResolutionOf;
    var payload := JfifSegment(version, unit, x, y, extra).payload;
    var head := JpegScan.JFIF + version + [unit];
    assert payload == head + PutU16(x, false) + (PutU16(y, false) + extra);
    assert payload == (head + PutU16(x, false)) + PutU16(y, false) + extra;
    HoldsMiddle(head, PutU16(x, false), PutU16(y, false) + extra);
    HoldsMiddle(head + PutU16(x, false), PutU16(y, false), extra);
    ReadU16(payload, 8, x, false);
    ReadU16(payload, 10, y, false);
    assert payload[..5] == JpegScan.JFIF && payload[7] == unit;
  }

  lemma JpegIsDetected(rest: seq<Byte>)
    ensures DetectContainerFormat(JpegScan.SOI + rest) == JpegContainer
  {
    var b := JpegScan.SOI + rest;
    assert b[0] == 0xFF && b[1] == 0xD8;
  }

  /** Items none of which holds a TIFF block with a resolution. */
  predicate NoExif(items: seq<JpegScan.Item>) {
    forall k | 0 <= k < |items| && items[k].Coded? :: JpegScan.ExifOf(items[k].segment).None?
  }

  /** Items none of which holds a TIFF block with a resolution that the code takes for a density. */
  predicate NoUsableExif(items: seq<JpegScan.Item>) {
    forall k | 0 <= k < |items| && items[k].Coded? ::
      JpegScan.ExifOf(items[k].segment).Some? ==> !JpegScan.ExifOf(items[k].segment).value.found
  }

  predicate NoJfif(items: seq<JpegScan.Item>) {
    forall k | 0 <= k < |items| && items[k].Coded? :: JpegScan.JfifOf(items[k].segment).None?
  }

  predicate AllValid(items: seq<JpegScan.Item>) {
    forall k | 0 <= k < |items| :: items[k].Valid()
  }

  /** What segments are added by items, the first one apart. */
  lemma FirstOfItems(segments: seq<JpegScan.Segment>, items: seq<JpegScan.Item>) returns (grown: seq<JpegScan.Segment>)
    requires items != []
    ensures grown == if items[0].Coded? then segments + [items[0].segment] else segments
    ensures segments + JpegScan.SegmentsOf(items) == grown + JpegScan.SegmentsOf(items[1..])
  {
    var head := if items[0].Coded? then [items[0].segment] else [];
    Assoc(segments, head, JpegScan.SegmentsOf(items[1..]));
    grown := if items[0].Coded? then segments + [items[0].segment] else segments;
    assert segments + [] == segments;
  }

  lemma {:induction false} UnusableExifStays(segments: seq<JpegScan.Segment>, items: seq<JpegScan.Item>)
    requires NoUsableExif(items)
    requires JpegScan.LastExif(segments).Some? ==> !JpegScan.LastExif(segments).value.found
    ensures var exif := JpegScan.LastExif(segments + JpegScan.SegmentsOf(items)); exif.Some? ==> !exif.value.found
    ensures NoExif(items) && JpegScan.LastExif(segments).None? ==>
      JpegScan.LastExif(segments + JpegScan.SegmentsOf(items)).None?
    decreases |items|
  {
    hide JpegScan.ExifOf, JpegScan.JfifOf, JpegScan.LastExif, JpegScan.SegmentsOf;
    if items == [] {
      NoItems(segments);
    } else {
      var grown := FirstOfItems(segments, items);
      assert forall k | 0 <= k < |items| - 1 :: items[1..][k] == items[k + 1];
      if items[0].Coded? {
        JpegScan.AppendOne(segments, items[0].segment);
      }
      UnusableExifStays(grown, items[1..]);
    }
  }

  lemma NoItems(segments: seq<JpegScan.Segment>)
    ensures segments + JpegScan.SegmentsOf([]) == segments
  {
  }

  lemma {:induction false} JfifStays(segments: seq<JpegScan.Segment>, items: seq<JpegScan.Item>)
    requires NoJfif(items)
    ensures JpegScan.LastJfif(segments + JpegScan.SegmentsOf(items)) == JpegScan.LastJfif(segments)
    decreases |items|
  {
    hide JpegScan.ExifOf, JpegScan.JfifOf, JpegScan.LastJfif, JpegScan.SegmentsOf;
    if items == [] {
      NoItems(segments);
    } else {
      var grown := FirstOfItems(segments, items);
      assert forall k | 0 <= k < |items| - 1 :: items[1..][k] == items[k + 1];
      if items[0].Coded? {
        JpegScan.AppendOne(segments, items[0].segment);
      }
      JfifStays(grown, items[1..]);
    }
  }

  /** A JPEG file whose last JFIF segment decides: no usable EXIF resolution anywhere, before it or behind it. */
  lemma JfifDecides(before: seq<JpegScan.Item>, i: JpegScan.Item, after: seq<JpegScan.Item>, endFill: nat, marker: Byte,
      anything: seq<Byte>)
    requires AllValid(before) && AllValid(after) && JpegScan.EndsScan(marker)
    requires NoUsableExif(before) && NoUsableExif(after) && NoJfif(after)
    requires i.Coded? && i.Valid() && JpegScan.JfifOf(i.segment).Some? && JpegScan.ExifOf(i.segment).None?
    ensures AllValid(before + [i] + after)
    ensures var d := EmbeddedDpiOf(JpegScan.SOI + JpegScan.PutItems(before + [i] + after) +
        (JpegScan.Fill(endFill + 1) + [marker] + anything));
      var j := JpegScan.JfifOf(i.segment).value;
      d.found == j.found && (j.found || (NoExif(before) && NoExif(after)) ==> d == j)
  {
    hide DetectContainerFormat, JpegScan.JpegDpi, JpegScan.JfifOf, JpegScan.ExifOf, JpegScan.LastExif,
      JpegScan.LastJfif, JpegScan.PutItems, JpegScan.SegmentsOf, NoUsableExif, NoExif, NoJfif;
    var items := before + [i] + after;
    var tail := JpegScan.Fill(endFill + 1) + [marker] + anything;
    var earlier := JpegScan.SegmentsOf(before);
    Assoc(JpegScan.SOI, JpegScan.PutItems(items), tail);
    JpegIsDetected(JpegScan.PutItems(items) + tail);
    JpegScan.OneSegment(i);
    JpegScan.SegmentsOfJoined(before, [i]);
    JpegScan.SegmentsOfJoined(before + [i], after);
    JpegScan.NothingVisited();
    UnusableExifStays([], before);
    assert [] + earlier == earlier;
    JpegScan.AppendOne(earlier, i.segment);
    UnusableExifStays(earlier + [i.segment], after);
    JfifStays(earlier + [i.segment], after);
    JpegScan.TerminatedJpegMeaning(items, endFill, marker, anything);
  }

  /** Dots per inch for one dot per unit: unit 2 is the centimetre, unit 1 the inch. */
  function FactorOf(unit: Byte): (f: real)
    ensures f > 0.0
  {
    if unit == 2 then 2.54 else 1.0
  }

  predicate IsJfifDensity(x: nat, y: nat, unit: Byte) {
    (unit == 1 || unit == 2) && InRange(x as real * FactorOf(unit)) && InRange(y as real * FactorOf(unit))
  }

  /** The answer for a JFIF segment, and the size it gives. */
  predicate IsJfifAnswer(d: Dpi, x: nat, y: nat, unit: Byte, width: nat, height: nat) {
    var f := FactorOf(unit);
    if !IsJfifDensity(x, y, unit) then
      d == Dpi(false, 0.0, 0.0, JfifApp0, if unit == 0 then NoPhysicalDpi else InvalidDpi)
    else
      && d == Dpi(true, x as real * f, y as real * f, JfifApp0, ResolutionFound) && x > 0 && y > 0
      && SizeFor(width, height, d) == Some(Scaled(2.54 / f, width, height, x as real, y as real))
  }

  lemma JfifAnswer(unit: Byte, x: nat, y: nat, width: nat, height: nat)
    requires width > 0 && height > 0
    ensures IsJfifAnswer(DpiFromJfif(unit, x, y), x, y, unit, width, height)
    ensures DpiFromJfif(unit, x, y).found <==> IsJfifDensity(x, y, unit)
  {
    hide CalculatePhysicalSizeCm;
    if DpiFromJfif(unit, x, y).found {
      if unit == 2 {
        JfifCentimetreDensity(width, height, x, y);
      } else {
        JfifInchDensity(width, height, x, y);
      }
    }
  }

  /** From the bytes of a JFIF segment that decides to centimetres. An EXIF block that is not usable may stand before it
      or behind it; only when the JFIF density is not usable either, it gives the reason. */
  lemma JfifBytesToCentimetres(before: seq<JpegScan.Item>, fill: nat, version: seq<Byte>, unit: Byte, x: nat, y: nat,
      extra: seq<Byte>, after: seq<JpegScan.Item>, endFill: nat, marker: Byte, anything: seq<Byte>, width: nat,
        height: nat)
    requires AllValid(before) && AllValid(after) && JpegScan.EndsScan(marker)
    requires NoUsableExif(before) && NoUsableExif(after) && NoJfif(after) && width > 0 && height > 0
    requires |version| == 2 && x < 0x1_0000 && y < 0x1_0000 && |extra| <= 0xFFFD - 12
    ensures var items := before + [JpegScan.Coded(fill, JfifSegment(version, unit, x, y, extra))] + after;
      && AllValid(items)
      && var d := EmbeddedDpiOf(JpegScan.SOI + JpegScan.PutItems(items) +
          (JpegScan.Fill(endFill + 1) + [marker] + anything));
      && (d.found <==> IsJfifDensity(x, y, unit))
      && (d.found || (NoExif(before) && NoExif(after)) ==> IsJfifAnswer(d, x, y, unit, width, height))
  {
    hide EmbeddedDpiOf, JpegScan.PutItems, JpegScan.JfifOf, JpegScan.ExifOf, JfifSegment, IsJfifAnswer, IsJfifDensity,
      DpiFromJfif,
      NoUsableExif, NoExif, NoJfif;
    var i := JpegScan.Coded(fill, JfifSegment(version, unit, x, y, extra));
    JfifIsRead(version, unit, x, y, extra);
    JfifDecides(before, i, after, endFill, marker, anything);
    JfifAnswer(unit, x, y, width, height);
  }

  // ---------------------------------------------------------------- TIFF and EXIF

  lemma TiffIsDetected(bytes: seq<Byte>, d: Tiff.Directory, le: bool)
    requires d.Valid() && Tiff.IsEncoding(bytes, d, le)
    ensures DetectContainerFormat(bytes) == TiffContainer
  {
    hide HoldsSvgTag, Tiff.PutEntry, Tiff.PutRational, PutU32, U32;
    var header := bytes[0..8];
    assert header == Tiff.PutHeader(d.at, le);
    assert bytes[0] == header[0] && bytes[1] == header[1] && bytes[2] == header[2] && bytes[3] == header[3];
  }

  /** The scale of a resolution unit: 3 counts per centimetre, 2 per inch. */
  function ScaleOf(r: Tiff.TiffResolution): real {
    if r.unit == 3 then 1.0 else 2.54
  }

  predicate Usable(r: Tiff.TiffResolution) {
    (r.unit == 2 || r.unit == 3) && InRange(r.x * (2.54 / ScaleOf(r))) && InRange(r.y * (2.54 / ScaleOf(r)))
  }

  /** The answer for a TIFF resolution, and the size it gives. */
  predicate IsResolutionAnswer(d: Dpi, r: Tiff.TiffResolution, source: Source, width: nat, height: nat) {
    var f := 2.54 / ScaleOf(r);
    if !Usable(r) then d == Dpi(false, 0.0, 0.0, source, InvalidDpi)
    else
      && d == Dpi(true, r.x * f, r.y * f, source, ResolutionFound) && r.x > 0.0 && r.y > 0.0
      && SizeFor(width, height, d) == Some(Scaled(ScaleOf(r), width, height, r.x, r.y))
  }

  lemma ResolutionAnswer(r: Tiff.TiffResolution, source: Source, width: nat, height: nat)
    requires width > 0 && height > 0
    ensures IsResolutionAnswer(DpiFromTiffResolution(r, source), r, source, width, height)
  {
    hide CalculatePhysicalSizeCm;
    if DpiFromTiffResolution(r, source).found {
      TiffDensity(width, height, r, source);
    }
  }

  /** A TIFF file that says what a directory says, in either byte order, with its rationals anywhere. */
  lemma TiffBytesToCentimetres(bytes: seq<Byte>, d: Tiff.Directory, le: bool, width: nat, height: nat)
    requires d.Valid() && Tiff.IsEncoding(bytes, d, le) && width > 0 && height > 0
    ensures var r := Tiff.Meaning(d);
      if r.None? then EmbeddedDpiOf(bytes) == Dpi(false, 0.0, 0.0, TiffIfd, NoPhysicalDpi)
      else IsResolutionAnswer(EmbeddedDpiOf(bytes), r.value, TiffIfd, width, height)
  {
    hide DetectContainerFormat, Tiff.IsEncoding, Tiff.ResolutionOf, Tiff.Meaning, DpiFromTiffResolution,
      IsResolutionAnswer;
    TiffIsDetected(bytes, d, le);
    Tiff.ParsesAsMeant(bytes, d, le);
    if Tiff.Meaning(d).Some? {
      ResolutionAnswer(Tiff.Meaning(d).value, TiffIfd, width, height);
    }
  }

  /** The same block as the only resolution segment of a JPEG file gives its pictures the same size. */
  lemma ExifBytesToCentimetres(before: seq<JpegScan.Item>, tiff: seq<Byte>, fill: nat, after: seq<JpegScan.Item>,
      endFill: nat, marker: Byte,
      anything: seq<Byte>, d: Tiff.Directory, le: bool, width: nat, height: nat)
    requires d.Valid() && Tiff.IsEncoding(tiff, d, le)
    requires |tiff| <= JpegScan.MAX_EXIF_BLOCK && JpegScan.AllNeutral(before) && JpegScan.AllNeutral(after) &&
      JpegScan.EndsScan(marker)
    ensures var items := before + [JpegScan.Coded(fill, JpegScan.ExifSegment(tiff))] + after;
      && (forall k | 0 <= k < |items| :: items[k].Valid())
      && var inJpeg := EmbeddedDpiOf(JpegScan.SOI + JpegScan.PutItems(items) +
          (JpegScan.Fill(endFill + 1) + [marker] + anything));
      inJpeg.Agrees(EmbeddedDpiOf(tiff)) &&
        SizeFor(width, height, inJpeg) == SizeFor(width, height, EmbeddedDpiOf(tiff))
  {
    hide DetectContainerFormat, Tiff.IsEncoding, JpegScan.JpegDpi, JpegScan.TiffDpi, JpegScan.PutItems,
      JpegScan.ExifSegment, JpegScan.AllNeutral;
    var items := before + [JpegScan.Coded(fill, JpegScan.ExifSegment(tiff))] + after;
    var tail := JpegScan.Fill(endFill + 1) + [marker] + anything;
    TiffIsDetected(tiff, d, le);
    JpegScan.ExifAgreesWithTiff(before, tiff, fill, after, endFill, marker, anything);
    Assoc(JpegScan.SOI, JpegScan.PutItems(items), tail);
    JpegIsDetected(JpegScan.PutItems(items) + tail);
  }
}

/** Small files, byte by byte, and the answers for them: the numbers that the formats fix, spelled out once more. */
module LiteralFiles {
  import opened Common
  import opened Bytes
  import opened EmbeddedDpi
  import opened MetadataParser
  import opened ImageSize
  import Tiff
  import PngScan
  import JpegScan

  // ---------------------------------------------------------------- PNG

  const IHDR: seq<Byte> := [0, 0, 0, 13, 0x49, 0x48, 0x44, 0x52, 0, 0, 0, 2, 0, 0, 0, 1, 8, 6, 0, 0, 0, 1, 2, 3, 4]
  const PHYS_300_150: seq<Byte> := [0, 0, 0, 9, 0x70, 0x48, 0x59, 0x73, 0, 0, 0x2E, 0x23, 0, 0, 0x17, 0x12, 1, 5, 6, 7,
    8]
  const PNG_FILE: seq<Byte> := [0x89, 0x50, 0x4E, 0x47, 0x0D, 0x0A, 0x1A, 0x0A] + IHDR + PHYS_300_150

  /** Big-endian words. */
  lemma Words()
    ensures PutU32(13, false) == [0, 0, 0, 13] && PutU32(9, false) == [0, 0, 0, 9]
    ensures PutU32(11811, false) == [0, 0, 0x2E, 0x23] && PutU32(5906, false) == [0, 0, 0x17, 0x12]
  {
  }

  const IHDR_CHUNK := PngScan.Chunk([0x49, 0x48, 0x44, 0x52], [0, 0, 0, 2, 0, 0, 0, 1, 8, 6, 0, 0, 0], [1, 2, 3, 4])

  lemma Signature()
    ensures PngScan.SIGNATURE == [0x89, 0x50, 0x4E, 0x47, 0x0D, 0x0A, 0x1A, 0x0A]
  {
  }

  lemma HeaderChunk()
    ensures IHDR_CHUNK.Valid() && IHDR_CHUNK.Skipped() && PngScan.PutChunk(IHDR_CHUNK) == IHDR
  {
    hide PutU32;
    Words();
    assert IHDR_CHUNK.name[0] == 0x49 && IHDR_CHUNK.name[1] == 0x48;
  }

  lemma DensityChunk()
    ensures PngScan.PutChunk(PhysChunk(11811, 5906, 1, [], [5, 6, 7, 8])) == PHYS_300_150
  {
    hide PutU32;
    Words();
    var c := PhysChunk(11811, 5906, 1, [], [5, 6, 7, 8]);
    assert c.data == [0, 0, 0x2E, 0x23, 0, 0, 0x17, 0x12, 1];
    assert c.name == [0x70, 0x48, 0x59, 0x73];
  }

  /** Behind a header chunk, 11811 and 5906 pixels per metre. */
  lemma PngFileAnswer()
    ensures EmbeddedDpiOf(PNG_FILE) == Dpi(true, 11811.0 * 0.0254, 5906.0 * 0.0254, PngPhys, ResolutionFound)
  {
    hide EmbeddedDpiOf, PngScan.SIGNATURE, PngScan.PutChunk, PhysChunk, IHDR, PHYS_300_150, IHDR_CHUNK;
    Signature();
    HeaderChunk();
    DensityChunk();
    var header := IHDR_CHUNK;
    var phys := PhysChunk(11811, 5906, 1, [], [5, 6, 7, 8]);
    assert [header][1..] == [];
    assert PngScan.PutChunks([header]) == PngScan.PutChunk(header) + [] == PngScan.PutChunk(header);
    assert PngScan.PutChunk(phys) + [] == PngScan.PutChunk(phys);
    PngBytesToCentimetres([header], 11811, 5906, 1, [], [5, 6, 7, 8], [], 1, 1);
  }

  // ---------------------------------------------------------------- JFIF

  /** The markers that end a scan, and those that have no length. */
  lemma MarkersAre(b: Byte)
    ensures JpegScan.EndsScan(b) <==> b in {0xD9, 0xDA}
    ensures JpegScan.Standalone(b) <==> b in {0x01, 0xD0, 0xD1, 0xD2, 0xD3, 0xD4, 0xD5, 0xD6, 0xD7}
  {
  }

  const JFIF_300_150: seq<Byte> := [0xFF, 0xE0, 0, 16, 0x4A, 0x46, 0x49, 0x46, 0, 1, 2, 1, 0x01, 0x2C, 0, 0x96, 0, 0]
  const LONE_MARKERS: seq<Byte> := [0xFF, 0x01, 0xFF, 0xD0, 0xFF, 0xFF, 0xD7]
  const JFIF_FILE: seq<Byte> := [0xFF, 0xD8] + LONE_MARKERS + JFIF_300_150 + [0xFF, 0xDA, 0xFF, 0xE0]

  lemma Halves()
    ensures PutU16(16, false) == [0, 16] && PutU16(300, false) == [0x01, 0x2C] && PutU16(150, false) == [0, 0x96]
    ensures PutU16(70, false) == [0, 70]
    ensures JpegScan.Fill(1) == [0xFF]
  {
  }

  lemma JfifParts()
    ensures JpegScan.SOI == [0xFF, 0xD8]
    ensures var i := JpegScan.Coded(0, JfifSegment([1, 2], 1, 300, 150, [0, 0]));
      i.Valid() && JpegScan.PutItem(i) == JFIF_300_150
  {
    hide PutU16, JpegScan.Fill;
    Halves();
    var s := JfifSegment([1, 2], 1, 300, 150, [0, 0]);
    assert s.payload == [0x4A, 0x46, 0x49, 0x46, 0, 1, 2, 1, 0x01, 0x2C, 0, 0x96, 0, 0];
    assert JpegScan.Body(JpegScan.Coded(0, s)) == [0xE0, 0, 16] + s.payload;
  }

  lemma LoneParts()
    ensures var a, b, c := JpegScan.Alone(0, 0x01), JpegScan.Alone(0, 0xD0), JpegScan.Alone(1, 0xD7);
      && a.Valid() && b.Valid() && c.Valid() && JpegScan.EndsScan(0xDA) && JpegScan.EndsScan(0xD9)
      && JpegScan.PutItem(a) == [0xFF, 0x01] && JpegScan.PutItem(b) == [0xFF, 0xD0] &&
          JpegScan.PutItem(c) == [0xFF, 0xFF, 0xD7]
    ensures JpegScan.Fill(1) == [0xFF]
  {
  }

  lemma FourItems(a: JpegScan.Item, b: JpegScan.Item, c: JpegScan.Item, d: JpegScan.Item)
    requires a.Valid() && b.Valid() && c.Valid() && d.Valid()
    ensures JpegScan.PutItems([a, b, c] + [d] + []) ==
      JpegScan.PutItem(a) + (JpegScan.PutItem(b) + (JpegScan.PutItem(c) + JpegScan.PutItem(d)))
  {
    hide JpegScan.PutItem;
    var all := [a, b, c] + [d] + [];
    assert all == [a, b, c, d];
    assert all[1..] == [b, c, d] && [b, c, d][1..] == [c, d] && [c, d][1..] == [d] && [d][1..] == [];
    assert JpegScan.PutItems([d]) == JpegScan.PutItem(d) + [] == JpegScan.PutItem(d);
    assert JpegScan.PutItems([c, d]) == JpegScan.PutItem(c) + JpegScan.PutItem(d);
    assert JpegScan.PutItems([b, c, d]) == JpegScan.PutItem(b) + (JpegScan.PutItem(c) + JpegScan.PutItem(d));
  }

  /** Behind three markers that stand alone, 300 by 150 dots per inch; nothing behind the start of scan counts. */
  lemma JfifFileAnswer()
    ensures EmbeddedDpiOf(JFIF_FILE) == Dpi(true, 300.0, 150.0, JfifApp0, ResolutionFound)
  {
    hide EmbeddedDpiOf, JpegScan.PutItem, JpegScan.PutItems, JfifSegment, JFIF_300_150, JpegScan.SOI, JpegScan.Fill,
      JpegScan.JfifOf, JpegScan.ExifOf;
    var a, b, c := JpegScan.Alone(0, 0x01), JpegScan.Alone(0, 0xD0), JpegScan.Alone(1, 0xD7);
    var i := JpegScan.Coded(0, JfifSegment([1, 2], 1, 300, 150, [0, 0]));
    JfifParts();
    LoneParts();
    FourItems(a, b, c, i);
    JfifBytesToCentimetres([a, b, c], 0, [1, 2], 1, 300, 150, [0, 0], [], 0, 0xDA, [0xFF, 0xE0], 1, 1);
    assert JFIF_FILE ==
      JpegScan.SOI + JpegScan.PutItems([a, b, c] + [i] + []) + (JpegScan.Fill(1) + [0xDA] + [0xFF, 0xE0]);
  }

  // ---------------------------------------------------------------- TIFF

  /** Both byte orders of one directory: tag 282 at 300/1, tag 283 at 150/1, tag 296 with unit 2, and two rationals
      behind it. */
  const II_FILE: seq<Byte> := [0x49, 0x49, 42, 0, 8, 0, 0, 0, 3, 0] +
    [0x1A, 0x01, 5, 0, 1, 0, 0, 0, 46, 0, 0, 0] + [0x1B, 0x01, 5, 0, 1, 0, 0, 0, 54, 0, 0, 0] +
    [0x28, 0x01, 3, 0, 1, 0, 0, 0, 2, 0, 0, 0] + [0x2C, 0x01, 0, 0, 1, 0, 0, 0] + [0x96, 0, 0, 0, 1, 0, 0, 0]

  const MM_FILE: seq<Byte> := [0x4D, 0x4D, 0, 42, 0, 0, 0, 8, 0, 3] +
    [0x01, 0x1A, 0, 5, 0, 0, 0, 1, 0, 0, 0, 46] + [0x01, 0x1B, 0, 5, 0, 0, 0, 1, 0, 0, 0, 54] +
    [0x01, 0x28, 0, 3, 0, 0, 0, 1, 0, 2, 0, 0] + [0, 0, 0x01, 0x2C, 0, 0, 0, 1] + [0, 0, 0, 0x96, 0, 0, 0, 1]

  function TiffFile(le: bool): seq<Byte> {
    if le then II_FILE else MM_FILE
  }

  const LITERAL_DIRECTORY: Tiff.Directory := Tiff.Directory(62, 8,
    [Tiff.Resolution(282, 46), Tiff.Resolution(283, 54), Tiff.Unit(2)],
      [Tiff.Rational(46, 300, 1), Tiff.Rational(54, 150, 1)])

  lemma LiteralIsValid()
    ensures LITERAL_DIRECTORY.Valid()
    ensures Tiff.Find(LITERAL_DIRECTORY.rationals, 46) == Some(0) &&
      Tiff.Find(LITERAL_DIRECTORY.rationals, 54) == Some(1)
  {
    var r := LITERAL_DIRECTORY.rationals;
    assert Last(r).at == 54 && ButLast(r) == [r[0]] && Last([r[0]]).at == 46;
  }

  /** The fields of the directory in both byte orders. */
  lemma Fields16(le: bool)
    ensures forall v: nat | v < 256 :: PutU16(v, le) == if le then [v, 0] else [0, v]
    ensures PutU16(282, le) == (if le then [0x1A, 0x01] else [0x01, 0x1A])
    ensures PutU16(283, le) == (if le then [0x1B, 0x01] else [0x01, 0x1B])
    ensures PutU16(296, le) == (if le then [0x28, 0x01] else [0x01, 0x28])
  {
  }

  lemma Fields32(le: bool)
    ensures forall v: nat | v < 256 :: PutU32(v, le) == if le then [v, 0, 0, 0] else [0, 0, 0, v]
    ensures PutU32(300, le) == if le then [0x2C, 0x01, 0, 0] else [0, 0, 0x01, 0x2C]
  {
  }

  lemma FirstEntry(le: bool)
    ensures Tiff.Resolution(282, 46).Valid()
    ensures Tiff.PutEntry(Tiff.Resolution(282, 46), le) ==
      if le then [0x1A, 0x01, 5, 0, 1, 0, 0, 0, 46, 0, 0, 0] else [0x01, 0x1A, 0, 5, 0, 0, 0, 1, 0, 0, 0, 46]
  {
    hide PutU16, PutU32;
    Fields16(le);
    Fields32(le);
  }

  lemma SecondEntry(le: bool)
    ensures Tiff.Resolution(283, 54).Valid()
    ensures Tiff.PutEntry(Tiff.Resolution(283, 54), le) ==
      if le then [0x1B, 0x01, 5, 0, 1, 0, 0, 0, 54, 0, 0, 0] else [0x01, 0x1B, 0, 5, 0, 0, 0, 1, 0, 0, 0, 54]
  {
    hide PutU16, PutU32;
    Fields16(le);
    Fields32(le);
  }

  lemma ThirdEntry(le: bool)
    ensures Tiff.Unit(2).Valid()
    ensures Tiff.PutEntry(Tiff.Unit(2), le) ==
      if le then [0x28, 0x01, 3, 0, 1, 0, 0, 0, 2, 0] else [0x01, 0x28, 0, 3, 0, 0, 0, 1, 0, 2]
  {
    hide PutU16, PutU32;
    Fields16(le);
    Fields32(le);
  }

  /** Where the parts of the block stand. */
  lemma BlockHead(le: bool)
    ensures |TiffFile(le)| == 62
    ensures TiffFile(le)[0..8] == if le then [0x49, 0x49, 42, 0, 8, 0, 0, 0] else [0x4D, 0x4D, 0, 42, 0, 0, 0, 8]
    ensures TiffFile(le)[8..10] == if le then [3, 0] else [0, 3]
  {
  }

  lemma BlockFirst(le: bool)
    ensures |TiffFile(le)| == 62
    ensures TiffFile(le)[10..22] ==
      if le then [0x1A, 0x01, 5, 0, 1, 0, 0, 0, 46, 0, 0, 0] else [0x01, 0x1A, 0, 5, 0, 0, 0, 1, 0, 0, 0, 46]
  {
  }

  lemma BlockSecond(le: bool)
    ensures |TiffFile(le)| == 62
    ensures TiffFile(le)[22..34] ==
      if le then [0x1B, 0x01, 5, 0, 1, 0, 0, 0, 54, 0, 0, 0] else [0x01, 0x1B, 0, 5, 0, 0, 0, 1, 0, 0, 0, 54]
  {
  }

  lemma BlockThird(le: bool)
    ensures |TiffFile(le)| == 62
    ensures TiffFile(le)[34..44] == if le then [0x28, 0x01, 3, 0, 1, 0, 0, 0, 2, 0]
      else [0x01, 0x28, 0, 3, 0, 0, 0, 1, 0, 2]
  {
  }

  lemma LiteralEntries(le: bool)
    ensures forall i | 0 <= i < 3 :: LITERAL_DIRECTORY.entries[i].Valid()
    ensures forall i | 0 <= i < 3 :: Holds(TiffFile(le), 10 + 12 * i, Tiff.PutEntry(LITERAL_DIRECTORY.entries[i], le))
  {
    hide Tiff.PutEntry, TiffFile;
    FirstEntry(le);
    SecondEntry(le);
    ThirdEntry(le);
    BlockFirst(le);
    BlockSecond(le);
    BlockThird(le);
  }

  lemma LiteralHeader(le: bool)
    ensures |TiffFile(le)| == 62 && Holds(TiffFile(le), 0, Tiff.PutHeader(8, le)) &&
      Holds(TiffFile(le), 8, PutU16(3, le))
  {
    hide PutU16, PutU32, TiffFile;
    Fields16(le);
    Fields32(le);
    BlockHead(le);
  }

  lemma LiteralRationals(le: bool)
    ensures Holds(TiffFile(le), 46, Tiff.PutRational(Tiff.Rational(46, 300, 1), le))
    ensures Holds(TiffFile(le), 54, Tiff.PutRational(Tiff.Rational(54, 150, 1), le))
  {
    hide PutU16, PutU32;
    Fields32(le);
    assert Tiff.PutRational(Tiff.Rational(46, 300, 1), le) == TiffFile(le)[46..54];
    assert Tiff.PutRational(Tiff.Rational(54, 150, 1), le) == TiffFile(le)[54..62];
  }

  lemma LiteralEncodes(le: bool)
    ensures LITERAL_DIRECTORY.Valid() && Tiff.IsEncoding(TiffFile(le), LITERAL_DIRECTORY, le)
  {
    hide TiffFile, Holds, Tiff.PutEntry, Tiff.PutHeader, Tiff.PutRational, PutU16;
    LiteralIsValid();
    LiteralHeader(le);
    LiteralEntries(le);
    LiteralRationals(le);
  }

  lemma LiteralMeans()
    ensures Tiff.Meaning(LITERAL_DIRECTORY) == Some(Tiff.TiffResolution(300.0, 150.0, 2))
  {
    var d := LITERAL_DIRECTORY;
    var e := d.entries;
    LiteralIsValid();
    hide Tiff.Find;
    assert ButLast(e) == [e[0], e[1]] && ButLast([e[0], e[1]]) == [e[0]];
    assert d.Resolve(46) == Some(300.0) && d.Resolve(54) == Some(150.0);
    assert Tiff.LastUnit(e) == Some(2);
    assert Tiff.LastRational(d, [e[0]], 282) == Some(300.0);
    assert Tiff.LastRational(d, [e[0], e[1]], 282) == Some(300.0);
    assert Tiff.LastRational(d, [e[0], e[1]], 283) == Some(150.0);
    assert Tiff.LastRational(d, e, 282) == Some(300.0) && Tiff.LastRational(d, e, 283) == Some(150.0);
  }

  /** 300 dots per inch across and 150 down, in either byte order. */
  lemma TiffFileAnswer(le: bool)
    ensures EmbeddedDpiOf(TiffFile(le)) == Dpi(true, 300.0, 150.0, TiffIfd, ResolutionFound)
  {
    hide EmbeddedDpiOf, TiffFile, LITERAL_DIRECTORY, Tiff.IsEncoding, Tiff.Meaning;
    LiteralEncodes(le);
    LiteralMeans();
    TiffBytesToCentimetres(TiffFile(le), LITERAL_DIRECTORY, le, 1, 1);
  }

  // ---------------------------------------------------------------- EXIF

  function ExifHead(): seq<Byte> {
    [0xFF, 0xD8, 0xFF, 0xE1, 0, 70, 0x45, 0x78, 0x69, 0x66, 0, 0]
  }

  lemma ExifParts(le: bool)
    requires |TiffFile(le)| == 62
    ensures var i := JpegScan.Coded(0, JpegScan.ExifSegment(TiffFile(le)));
      i.Valid() && JpegScan.SOI + JpegScan.PutItem(i) == ExifHead() + TiffFile(le)
  {
    hide TiffFile, PutU16, JpegScan.Fill, JpegScan.ExifSegment, JpegScan.Body;
    var s, block := JpegScan.ExifSegment(TiffFile(le)), TiffFile(le);
    Halves();
    ExifBody(block);
    assert JpegScan.SOI + ([0xFF] + ([0xE1, 0, 70, 0x45, 0x78, 0x69, 0x66, 0, 0] + block)) == ExifHead() + block;
  }

  lemma ExifBody(block: seq<Byte>)
    requires |block| == 62
    ensures var i := JpegScan.Coded(0, JpegScan.ExifSegment(block));
      i.Valid() && JpegScan.Body(i) == [0xE1, 0, 70, 0x45, 0x78, 0x69, 0x66, 0, 0] + block
  {
    hide PutU16;
    Halves();
    assert JpegScan.ExifSegment(block).payload == [0x45, 0x78, 0x69, 0x66, 0, 0] + block;
  }

  /** The same block in an EXIF segment, found as such. */
  lemma ExifFileAnswer(le: bool)
    ensures EmbeddedDpiOf(ExifHead() + TiffFile(le) +
      [0xFF, 0xD9]).Agrees(Dpi(true, 300.0, 150.0, ExifIfd, ResolutionFound))
  {
    hide EmbeddedDpiOf, TiffFile, LITERAL_DIRECTORY, Tiff.IsEncoding, JpegScan.PutItem, JpegScan.PutItems,
      JpegScan.ExifSegment, JpegScan.SOI,
      JpegScan.Fill, ExifHead;
    LiteralHeader(le);
    LiteralEncodes(le);
    TiffFileAnswer(le);
    ExifParts(le);
    LoneParts();
    ExifBytesToCentimetres([], TiffFile(le), 0, [], 0, 0xD9, [], LITERAL_DIRECTORY, le, 1, 1);
    var i := JpegScan.Coded(0, JpegScan.ExifSegment(TiffFile(le)));
    assert [] + [i] + [] == [i] && [i][1..] == [];
    OneItem(i);
    assert JpegScan.Fill(1) + [0xD9] + [] == [0xFF, 0xD9];
  }

  lemma OneItem(i: JpegScan.Item)
    requires i.Valid()
    ensures JpegScan.PutItems([i]) == JpegScan.PutItem(i)
  {
    hide JpegScan.PutItem;
    assert [i][1..] == [] && JpegScan.PutItem(i) + [] == JpegScan.PutItem(i);
  }
}

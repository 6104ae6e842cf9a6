/** `DetectContainerFormat` and `DetectEmbeddedDpi` of `src/imaging/MetadataParser.cpp`, and the bounded read of
    `src/imaging/StreamImageInspection.cpp` that feeds them. */
module MetadataParser {
  import opened Common
  import opened Bytes
  import opened EmbeddedDpi
  import Tiff
  import PngScan
  import JpegScan
  import PngFinality
  import JpegFinality
  import TiffFinality

  datatype Format = UnknownContainer | PngContainer | JpegContainer | TiffContainer | SvgContainer | PdfContainer

  const PROBE_SIZE: nat := 512
  const MAX_METADATA_SCAN_BYTES: nat := 16 * 1024 * 1024

  function ToLower(b: Byte): Byte {
    if 'A' as int <= b <= 'Z' as int then b + 32 else b
  }

  /** Whether the lower-cased text of `b` holds `c` followed by "svg". */
  predicate HoldsSvgTag(b: seq<Byte>, c: Byte) {
    exists i | 0 <= i < |b| :: IsSvgTag(b, i, c)
  }

  predicate IsSvgTag(b: seq<Byte>, i: nat, c: Byte) {
    && i + 4 <= |b| && ToLower(b[i]) == c
    && ToLower(b[i + 1]) == 's' as int && ToLower(b[i + 2]) == 'v' as int && ToLower(b[i + 3]) == 'g' as int
  }

  function DetectContainerFormat(b: seq<Byte>): Format {
    if |b| >= 8 && b[0] == 0x89 && b[1] == 'P' as int && b[2] == 'N' as int && b[3] == 'G' as int then PngContainer
    else if |b| >= 2 && b[0] == 0xFF && b[1] == 0xD8 then JpegContainer
    else if |b| >= 4 &&
      ((b[0] == 'I' as int && b[1] == 'I' as int && b[2] == 42 && b[3] == 0) ||
       (b[0] == 'M' as int && b[1] == 'M' as int && b[2] == 0 && b[3] == 42)) then TiffContainer
    else if |b| >= 5 && b[0] == '%' as int && b[1] == 'P' as int && b[2] == 'D' as int && b[3] == 'F' as int &&
      b[4] == '-' as int then
      PdfContainer
    else
      var probe := if |b| < PROBE_SIZE then b else b[..PROBE_SIZE];
      if HoldsSvgTag(probe, '<' as int) || HoldsSvgTag(probe, ':' as int) then SvgContainer else UnknownContainer
  }

  function EmbeddedDpiOf(b: seq<Byte>): Dpi {
    match DetectContainerFormat(b)
    case PngContainer => PngScan.PngDpi(b)
    case JpegContainer => JpegScan.JpegDpi(b)
    case TiffContainer => JpegScan.TiffDpi(b)
    case SvgContainer => NotFound(Svg, NotApplicable)
    case PdfContainer => NotFound(Pdf, NotApplicable)
    case UnknownContainer => NotFound(UnknownFormat, UnsupportedFormat)
  }

  method DetectEmbeddedDpi(bytes: seq<Byte>) returns (r: Dpi)
    requires |bytes| <= MAX_VECTOR
    ensures r == EmbeddedDpiOf(bytes)
  {
    match DetectContainerFormat(bytes) {
      case PngContainer => r := PngScan.ParsePng(bytes);
      case JpegContainer => r := JpegScan.ParseJpeg(bytes);
      case TiffContainer => r := JpegScan.ParseTiff(bytes);
      case SvgContainer => r := NotFound(Svg, NotApplicable);
      case PdfContainer => r := NotFound(Pdf, NotApplicable);
      case UnknownContainer => r := NotFound(UnknownFormat, UnsupportedFormat);
    }
  }

  /** On every input: a found answer has both densities in the reasonable range, any other has none. */
  lemma EveryAnswerIsSound(b: seq<Byte>)
    ensures EmbeddedDpiOf(b).Sound()
    ensures var d := EmbeddedDpiOf(b);
      if d.found then 1.0 <= d.x <= 100000.0 && 1.0 <= d.y <= 100000.0 else d.x == 0.0 && d.y == 0.0
  {
    hide DetectContainerFormat;
    PngScan.ScanIsSound(b, 8);
    JpegScan.JpegIsSound(b);
  }

  /** The containers by the bytes a file starts with. */
  lemma SignaturesDecide(b: seq<Byte>)
    ensures DetectContainerFormat(b) == PngContainer <==> |b| >= 8 && [0x89, 0x50, 0x4E, 0x47] <= b
    ensures DetectContainerFormat(b) == JpegContainer <==> [0xFF, 0xD8] <= b
    ensures DetectContainerFormat(b) == TiffContainer <==>
      [0x49, 0x49, 0x2A, 0x00] <= b || [0x4D, 0x4D, 0x00, 0x2A] <= b
    ensures DetectContainerFormat(b) == PdfContainer <==> [0x25, 0x50, 0x44, 0x46, 0x2D] <= b
  {
    hide HoldsSvgTag;
    StartsWith(b, [0x89, 0x50, 0x4E, 0x47]);
    StartsWith(b, [0xFF, 0xD8]);
    StartsWith(b, [0x49, 0x49, 0x2A, 0x00]);
    StartsWith(b, [0x4D, 0x4D, 0x00, 0x2A]);
    StartsWith(b, [0x25, 0x50, 0x44, 0x46, 0x2D]);
  }

  lemma StartsWith(b: seq<Byte>, p: seq<Byte>)
    requires |p| <= 5
    ensures p <= b <==>
      && |b| >= |p| && (|p| > 0 ==> b[0] == p[0]) && (|p| > 1 ==> b[1] == p[1]) && (|p| > 2 ==> b[2] == p[2])
      && (|p| > 3 ==> b[3] == p[3]) && (|p| > 4 ==> b[4] == p[4])
  {
    if |b| >= |p| {
      assert p <= b <==> forall i | 0 <= i < |p| :: p[i] == b[i];
    }
  }

  // ---------------------------------------------------------------- text formats

  /** A file that is neither PNG, JPEG nor TIFF by its first bytes. */
  predicate NoImageStart(b: seq<Byte>) {
    |b| > 0 ==> b[0] != 0x89 && b[0] != 0xFF && b[0] != 'I' as int && b[0] != 'M' as int
  }

  /** A PDF header decides, whatever follows. */
  lemma PdfIsDetected(rest: seq<Byte>)
    ensures EmbeddedDpiOf(['%' as int, 'P' as int, 'D' as int, 'F' as int, '-' as int] + rest) ==
      Dpi(false, 0.0, 0.0, EmbeddedDpi.Pdf, NotApplicable)
  {
    hide HoldsSvgTag;
    var b := ['%' as int, 'P' as int, 'D' as int, 'F' as int, '-' as int] + rest;
    assert b[0] == '%' as int && b[1] == 'P' as int && b[2] == 'D' as int && b[3] == 'F' as int && b[4] == '-' as int;
  }

  /** An opening svg tag at this place, in any case, with or without a namespace, within the first 512 bytes. */
  predicate SvgTagAt(b: seq<Byte>, at: nat) {
    && at + 4 <= |b| && at + 4 <= 512 && (b[at] == 0x3C || b[at] == 0x3A)
    && (b[at + 1] == 0x73 || b[at + 1] == 0x53) && (b[at + 2] == 0x76 || b[at + 2] == 0x56)
    && (b[at + 3] == 0x67 || b[at + 3] == 0x47)
  }

  /** Without any other start, a file with such a tag is an SVG file, and one without is of no supported format. */
  lemma SvgExactly(b: seq<Byte>)
    requires NoImageStart(b) && (|b| > 0 ==> b[0] != '%' as int)
    ensures EmbeddedDpiOf(b) ==
      if exists at: nat :: SvgTagAt(b, at) then Dpi(false, 0.0, 0.0, EmbeddedDpi.Svg, NotApplicable)
      else Dpi(false, 0.0, 0.0, UnknownFormat, UnsupportedFormat)
  {
    hide HoldsSvgTag, SvgTagAt;
    var probe := if |b| < PROBE_SIZE then b else b[..PROBE_SIZE];
    TagIsHeld(b, probe);
  }

  lemma TagIsHeld(b: seq<Byte>, probe: seq<Byte>)
    requires probe == if |b| < PROBE_SIZE then b else b[..PROBE_SIZE]
    ensures HoldsSvgTag(probe, '<' as int) || HoldsSvgTag(probe, ':' as int) <==> exists at: nat :: SvgTagAt(b, at)
  {
    hide HoldsSvgTag, SvgTagAt;
    SameTags(b, probe);
    if at: nat :| SvgTagAt(b, at) {
      TagInProbe(probe, at);
    }
    if HoldsSvgTag(probe, '<' as int) {
      var at := TagPlace(probe, '<' as int);
    }
    if HoldsSvgTag(probe, ':' as int) {
      var at := TagPlace(probe, ':' as int);
    }
  }

  lemma SameTags(b: seq<Byte>, probe: seq<Byte>)
    requires probe == if |b| < PROBE_SIZE then b else b[..PROBE_SIZE]
    ensures |probe| <= 512 && forall at: nat :: SvgTagAt(b, at) <==> SvgTagAt(probe, at)
  {
  }

  lemma TagInProbe(probe: seq<Byte>, at: nat)
    requires SvgTagAt(probe, at)
    ensures HoldsSvgTag(probe, '<' as int) || HoldsSvgTag(probe, ':' as int)
  {
    assert IsSvgTag(probe, at, probe[at]);
  }

  lemma TagPlace(probe: seq<Byte>, c: Byte) returns (at: nat)
    requires HoldsSvgTag(probe, c) && |probe| <= 512 && (c == '<' as int || c == ':' as int)
    ensures SvgTagAt(probe, at)
  {
    hide IsSvgTag, SvgTagAt;
    at :| IsSvgTag(probe, at, c);
    TagIsRead(probe, at, c);
  }

  lemma TagIsRead(probe: seq<Byte>, at: nat, c: Byte)
    requires IsSvgTag(probe, at, c) && |probe| <= 512 && (c == '<' as int || c == ':' as int)
    ensures SvgTagAt(probe, at)
  {
    hide ToLower;
    OnlyCase(probe[at], c);
    OnlyCase(probe[at + 1], 's' as int);
    OnlyCase(probe[at + 2], 'v' as int);
    OnlyCase(probe[at + 3], 'g' as int);
  }

  lemma OnlyCase(b: Byte, c: Byte)
    requires ToLower(b) == c
    ensures b == c || ('a' as int <= c <= 'z' as int && b == c - 32)
  {
  }

  // ---------------------------------------------------------------- the 16 MiB prefix

  /** What the stream reader hands to the scanners. */
  function ReadPrefix(file: seq<Byte>): (b: seq<Byte>)
    ensures b <= file && |b| == if |file| < 16777216 then |file| else 16777216
  {
    if |file| <= MAX_METADATA_SCAN_BYTES then file else file[..MAX_METADATA_SCAN_BYTES]
  }

  /** Whether the scan of a prefix has already seen all it needs: the deciding PNG chunk, a point at which a JPEG scan
      stops for good, or a complete TIFF directory that nothing behind it can mend. */
  predicate Decided(b: seq<Byte>) {
    match DetectContainerFormat(b)
    case PngContainer => Holds(b, 0, PngScan.SIGNATURE) ==> PngFinality.Settled(b, 8)
    case JpegContainer => |b| >= 4 && JpegScan.Settled(b, 2)
    case TiffContainer => Tiff.DirectoryFits(b) && TiffFinality.Settled(b)
    case SvgContainer => true
    case PdfContainer => true
    case UnknownContainer => true
  }

  lemma FormatInPrefix(b: seq<Byte>, more: seq<Byte>)
    requires |b| >= PROBE_SIZE
    ensures DetectContainerFormat(b + more) == DetectContainerFormat(b)
  {
    hide HoldsSvgTag;
    assert (b + more)[..PROBE_SIZE] == b[..PROBE_SIZE];
  }

  /** The bytes of a prefix have been given the same answer in every file that starts with it. */
  ghost predicate Final(b: seq<Byte>) {
    forall more: seq<Byte> :: EmbeddedDpiOf(b + more) == EmbeddedDpiOf(b)
  }

  /** Scanning a prefix is exact once it has decided, whatever follows. */
  lemma PrefixIsExact(b: seq<Byte>, more: seq<Byte>)
    requires |b| >= PROBE_SIZE && Decided(b)
    ensures EmbeddedDpiOf(b + more) == EmbeddedDpiOf(b)
  {
    hide DetectContainerFormat, PngFinality.Settled, JpegScan.Settled, TiffFinality.Settled, Tiff.DirectoryFits,
      Tiff.ResolutionOf, JpegScan.JpegDpi,
      PngScan.ScanFrom;
    FormatInPrefix(b, more);
    match DetectContainerFormat(b) {
      case PngContainer =>
        assert (b + more)[0..8] == b[0..8];
        if Holds(b, 0, PngScan.SIGNATURE) {
          PngFinality.SettledStays(b, more, 8);
        }
      case JpegContainer =>
        StartsWithSoi(b);
        assert b[..2] == JpegScan.SOI;
        JpegScan.PrefixIsExact(b, more);
      case TiffContainer =>
        TiffFinality.SettledStays(b, more);
      case SvgContainer =>
      case PdfContainer =>
      case UnknownContainer =>
    }
  }

  lemma DetectedAsPng(b: seq<Byte>)
    requires |b| >= 8
    ensures PngFinality.MayBePng(b) <==> Holds(b, 0, PngScan.SIGNATURE)
    ensures PngScan.SIGNATURE <= b <==> Holds(b, 0, PngScan.SIGNATURE)
  {
    assert b[0..8] == b[..8];
  }

  lemma UndecidedPng(b: seq<Byte>)
    requires |b| >= PROBE_SIZE && DetectContainerFormat(b) == PngContainer && !Decided(b)
    ensures !Final(b)
  {
    hide DetectContainerFormat, PngFinality.Settled, PngScan.PngDpi;
    DetectedAsPng(b);
    PngFinality.FinalExactly(b);
    var more: seq<Byte> :| PngScan.PngDpi(b + more) != PngScan.PngDpi(b);
    FormatInPrefix(b, more);
  }

  lemma UndecidedJpeg(b: seq<Byte>)
    requires |b| >= PROBE_SIZE && DetectContainerFormat(b) == JpegContainer && !Decided(b)
    ensures !Final(b)
  {
    hide DetectContainerFormat, JpegScan.Settled, JpegScan.JpegDpi;
    StartsWithSoi(b);
    JpegFinality.FinalExactly(b);
    var more: seq<Byte> :| JpegScan.JpegDpi(b + more) != JpegScan.JpegDpi(b);
    FormatInPrefix(b, more);
  }

  /** A resolution where there was none is another answer, even if it is no reasonable one. */
  lemma MendedTiff(b: seq<Byte>, more: seq<Byte>)
    requires |b| >= PROBE_SIZE && DetectContainerFormat(b) == TiffContainer
    requires Tiff.ResolutionOf(b).None? && Tiff.ResolutionOf(b + more).Some?
    ensures !Final(b)
  {
    hide DetectContainerFormat, Tiff.ResolutionOf;
    FormatInPrefix(b, more);
    assert EmbeddedDpiOf(b + more).status != NoPhysicalDpi;
  }

  /** A prefix has decided exactly when every file that starts with it gets the same answer; of a TIFF file it must hold
      the directory. */
  lemma DecidedExactly(b: seq<Byte>)
    requires |b| >= PROBE_SIZE
    requires DetectContainerFormat(b) == TiffContainer ==> Tiff.DirectoryFits(b)
    ensures Decided(b) <==> Final(b)
  {
    hide DetectContainerFormat, EmbeddedDpiOf, Tiff.DirectoryFits, Tiff.ResolutionOf, PngFinality.Settled,
      JpegScan.Settled, TiffFinality.Settled;
    if Decided(b) {
      forall more: seq<Byte>
        ensures EmbeddedDpiOf(b + more) == EmbeddedDpiOf(b)
      {
        PrefixIsExact(b, more);
      }
    } else {
      match DetectContainerFormat(b) {
        case PngContainer => UndecidedPng(b);
        case JpegContainer => UndecidedJpeg(b);
        case TiffContainer =>
          TiffFinality.UnsettledCanBeMended(b);
          MendedTiff(b, TiffFinality.Ones());
        case SvgContainer =>
        case PdfContainer =>
        case UnknownContainer =>
      }
    }
  }

  /** A TIFF file whose directory stands behind the prefix, or misses three entries in it, has not decided and can go on
      to another answer. */
  lemma CutDirectoryDecidesNothing(b: seq<Byte>)
    requires |b| >= PROBE_SIZE && DetectContainerFormat(b) == TiffContainer && TiffFinality.MissesThree(b)
    ensures !Decided(b) && !Final(b)
  {
    hide DetectContainerFormat, EmbeddedDpiOf, Tiff.DirectoryFits, Tiff.ResolutionOf, TiffFinality.MissesThree,
      TiffFinality.Mended;
    TiffFinality.CutDirectoryIsOpen(b);
    var more := TiffFinality.Mended(b)[|b|..];
    assert b + more == TiffFinality.Mended(b);
    MendedTiff(b, more);
  }

  lemma StartsWithSoi(b: seq<Byte>)
    requires DetectContainerFormat(b) == JpegContainer
    ensures |b| >= 2 && b[0] == 0xFF && b[1] == 0xD8
  {
    hide HoldsSvgTag;
  }

  /** What justifies reading at most 16 MiB of a file. */
  lemma CapIsExact(file: seq<Byte>)
    requires |file| <= MAX_METADATA_SCAN_BYTES || Decided(ReadPrefix(file))
    ensures DetectContainerFormat(ReadPrefix(file)) == DetectContainerFormat(file)
    ensures EmbeddedDpiOf(ReadPrefix(file)) == EmbeddedDpiOf(file)
  {
    if |file| > MAX_METADATA_SCAN_BYTES {
      var b, more := file[..MAX_METADATA_SCAN_BYTES], file[MAX_METADATA_SCAN_BYTES..];
      assert b + more == file;
      FormatInPrefix(b, more);
      PrefixIsExact(b, more);
    }
  }
}

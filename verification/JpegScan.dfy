/** `ParseJpeg` of `src/imaging/MetadataParser.cpp`: a scan over the marker segments of ITU-T T.81, section B.1.1,
    for JFIF APP0 (ITU-T T.871, section 10.1) and EXIF APP1 segments. */
module JpegScan {
  import opened Common
  import opened Bytes
  import opened EmbeddedDpi
  import Tiff

  const SOI: seq<Byte> := [0xFF, 0xD8]
  const JFIF: seq<Byte> := ['J' as int, 'F' as int, 'I' as int, 'F' as int, 0]
  const EXIF: seq<Byte> := ['E' as int, 'x' as int, 'i' as int, 'f' as int, 0, 0]
  const APP0: Byte := 0xE0
  const APP1: Byte := 0xE1

  datatype Segment = Segment(marker: Byte, payload: seq<Byte>)

  predicate EndsScan(marker: Byte) {
    marker == 0xDA || marker == 0xD9
  }

  predicate Standalone(marker: Byte) {
    marker == 0x01 || 0xD0 <= marker <= 0xD7
  }

  // ---------------------------------------------------------------- what the scan visits

  function SkipFill(b: seq<Byte>, pos: nat): (p: nat)
    requires pos <= |b|
    ensures pos <= p <= |b|
    ensures forall k | pos <= k < p :: b[k] == 0xFF
    ensures p < |b| ==> b[p] != 0xFF
    decreases |b| - pos
  {
    if pos < |b| && b[pos] == 0xFF then SkipFill(b, pos + 1) else pos
  }

  /** Whether a whole segment follows the marker byte at `p`. */
  predicate SegmentFits(b: seq<Byte>, p: nat) {
    p + 3 <= |b| && 2 <= U16(b, p + 1, false) && p + 1 + U16(b, p + 1, false) <= |b|
  }

  function SegmentAt(b: seq<Byte>, p: nat): Segment
    requires SegmentFits(b, p)
  {
    Segment(b[p], b[p + 3..p + 1 + U16(b, p + 1, false)])
  }

  /** What one turn of the loop does: stop, pass a marker that stands alone, or take a segment. */
  datatype Turn = Stop | Pass(next: nat) | Take(segment: Segment, next: nat) {
    function Moved(n: nat): Turn {
      match this
      case Stop => Stop
      case Pass(next) => Pass(next + n)
      case Take(s, next) => Take(s, next + n)
    }
  }

  function TurnAt(b: seq<Byte>, pos: nat): (t: Turn)
    requires pos <= |b|
    ensures !t.Stop? ==> pos < t.next <= |b|
  {
    var p := SkipFill(b, pos);
    if pos + 4 > |b| || p == |b| || EndsScan(b[p]) then Stop
    else if Standalone(b[p]) then Pass(p + 1)
    else if !SegmentFits(b, p) then Stop
    else Take(SegmentAt(b, p), p + 1 + U16(b, p + 1, false))
  }

  /** The segments the scan visits from `pos` on. */
  function Visit(b: seq<Byte>, pos: nat): seq<Segment>
    requires pos <= |b|
    decreases |b| - pos
  {
    match TurnAt(b, pos)
    case Stop => []
    case Pass(next) => Visit(b, next)
    case Take(s, next) => [s] + Visit(b, next)
  }

  // ---------------------------------------------------------------- what the visited segments mean

  function JfifOf(s: Segment): Option<Dpi> {
    if s.marker == APP0 && |s.payload| >= 12 && s.payload[..5] == JFIF then
      Some(DpiFromJfif(s.payload[7], U16(s.payload, 8, false), U16(s.payload, 10, false)))
    else None
  }

  function ExifOf(s: Segment): Option<Dpi> {
    if s.marker == APP1 && |s.payload| > 14 && s.payload[..6] == EXIF then
      var tiff := Tiff.ResolutionOf(s.payload[6..]);
      if tiff.Some? then Some(DpiFromTiffResolution(tiff.value, ExifIfd)) else None
    else None
  }

  function LastJfif(segments: seq<Segment>): Option<Dpi> {
    if segments == [] then None
    else if JfifOf(Last(segments)).Some? then JfifOf(Last(segments))
    else LastJfif(ButLast(segments))
  }

  function LastExif(segments: seq<Segment>): Option<Dpi> {
    if segments == [] then None
    else if ExifOf(Last(segments)).Some? then ExifOf(Last(segments))
    else LastExif(ButLast(segments))
  }

  function Choose(exif: Option<Dpi>, jfif: Option<Dpi>): Dpi {
    if exif.Some? && exif.value.found then exif.value
    else if jfif.Some? && jfif.value.found then jfif.value
    else if exif.Some? then exif.value
    else if jfif.Some? then jfif.value
    else NotFound(Jpeg, NoPhysicalDpi)
  }

  function JpegDpi(b: seq<Byte>): Dpi {
    if |b| < 4 || b[..2] != SOI then NotFound(Jpeg, InvalidFormat)
    else
      var segments := Visit(b, 2);
      Choose(LastExif(segments), LastJfif(segments))
  }

  lemma {:induction false} AppendOne(segments: seq<Segment>, s: Segment)
    ensures LastJfif(segments + [s]) == if JfifOf(s).Some? then JfifOf(s) else LastJfif(segments)
    ensures LastExif(segments + [s]) == if ExifOf(s).Some? then ExifOf(s) else LastExif(segments)
  {
    hide JfifOf, ExifOf;
    assert ButLast(segments + [s]) == segments;
  }

  /** The scan in `size_t` arithmetic. The nested TIFF block is read through a buffer of its own, so no read
      leaves the segment. */
  method ParseJpeg(bytes: seq<Byte>) returns (r: Dpi)
    requires |bytes| <= MAX_VECTOR
    ensures r == JpegDpi(bytes)
  {
    hide Visit, SkipFill, JfifOf, ExifOf, LastJfif, LastExif, Choose, U16;
    var size := |bytes| as Size;
    if size < 4 || bytes[0] != 0xFF || bytes[1] != 0xD8 {
      assert |bytes| >= 4 ==> bytes[..2][0] == bytes[0] && bytes[..2][1] == bytes[1];
      return NotFound(Jpeg, InvalidFormat);
    }
    assert bytes[..2] == SOI;
    var jfif: Option<Dpi>, exif: Option<Dpi> := None, None;
    var pos: Size := 2;
    ghost var visited: seq<Segment> := [];
    NothingVisited();
    while pos + 4 <= size
      invariant 2 <= pos <= size
      invariant jfif == LastJfif(visited) && exif == LastExif(visited)
      invariant visited + Visit(bytes, pos as int) == Visit(bytes, 2)
      decreases size - pos
    {
      ghost var turn := TurnAt(bytes, pos as int);
      VisitTurn(bytes, pos as int);
      pos := PassFill(bytes, pos);
      if pos >= size {
        break;
      }
      var marker := bytes[pos as int];
      pos := pos + 1;
      if marker == 0xDA || marker == 0xD9 {
        break;
      }
      if marker == 0x01 || 0xD0 <= marker <= 0xD7 {
        continue;
      }
      if pos + 2 > size {
        break;
      }
      var segmentLength := U16(bytes, pos as int, false) as Size;
      if segmentLength < 2 || pos + segmentLength > size {
        break;
      }
      var payload := bytes[(pos + 2) as int..(pos + segmentLength) as int];
      jfif, exif := ReadSegment(Segment(marker, payload), jfif, exif);
      assert turn.Take? && turn.segment == Segment(marker, payload);
      AppendOne(visited, turn.segment);
      visited := visited + [turn.segment];
      pos := pos + segmentLength;
    }
    VisitTurn(bytes, pos as int);
    assert visited + [] == visited;
    return Choose(exif, jfif);
  }

  lemma VisitTurn(b: seq<Byte>, pos: nat)
    requires pos <= |b|
    ensures match TurnAt(b, pos)
      case Stop => Visit(b, pos) == []
      case Pass(next) => Visit(b, pos) == Visit(b, next)
      case Take(s, next) => Visit(b, pos) == [s] + Visit(b, next)
  {
  }

  lemma NothingVisited()
    ensures LastJfif([]) == None && LastExif([]) == None
  {
  }

  /** The inner loop over fill bytes. */
  method PassFill(bytes: seq<Byte>, from: Size) returns (pos: Size)
    requires |bytes| <= MAX_VECTOR && from as int <= |bytes|
    ensures pos as int == SkipFill(bytes, from as int)
  {
    pos := from;
    while pos < |bytes| as Size && bytes[pos as int] == 0xFF
      invariant from <= pos && pos as int <= |bytes|
      invariant SkipFill(bytes, pos as int) == SkipFill(bytes, from as int)
      decreases |bytes| - pos as int
    {
      pos := pos + 1;
    }
  }

  /** What the scan does with one complete segment. */
  method ReadSegment(s: Segment, jfif0: Option<Dpi>, exif0: Option<Dpi>) returns (jfif: Option<Dpi>, exif: Option<Dpi>)
    requires |s.payload| <= MAX_VECTOR
    ensures jfif == (if JfifOf(s).Some? then JfifOf(s) else jfif0)
    ensures exif == (if ExifOf(s).Some? then ExifOf(s) else exif0)
  {
    hide U16, DpiFromJfif, DpiFromTiffResolution, Tiff.ResolutionOf;
    jfif, exif := jfif0, exif0;
    if s.marker == APP0 && |s.payload| >= 12 && s.payload[..5] == JFIF {
      jfif := Some(DpiFromJfif(s.payload[7], U16(s.payload, 8, false), U16(s.payload, 10, false)));
    } else if s.marker == APP1 && |s.payload| > 14 && s.payload[..6] == EXIF {
      var tiff := Tiff.ParseTiffResolution(s.payload[6..]);
      if tiff.Some? {
        exif := Some(DpiFromTiffResolution(tiff.value, ExifIfd));
      }
    }
  }

  lemma {:induction false} LastIsSound(segments: seq<Segment>)
    ensures LastJfif(segments).Some? ==> LastJfif(segments).value.Sound()
    ensures LastExif(segments).Some? ==> LastExif(segments).value.Sound()
  {
    if segments != [] {
      LastIsSound(ButLast(segments));
    }
  }

  lemma JpegIsSound(b: seq<Byte>)
    ensures JpegDpi(b).Sound()
  {
    if !(|b| < 4 || b[..2] != SOI) {
      LastIsSound(Visit(b, 2));
    }
  }

  // ---------------------------------------------------------------- printed files

  /** One marker with its fill bytes: a segment, or a marker that stands alone. */
  datatype Item = Coded(fill: nat, segment: Segment) | Alone(fill: nat, marker: Byte) {
    predicate Valid() {
      match this
      case Coded(_, s) => s.marker != 0xFF && !EndsScan(s.marker) && !Standalone(s.marker) && |s.payload| <= 0xFFFD
      case Alone(_, m) => Standalone(m)
    }

    /** The turn that meets this item at `pos`; a lone marker within the last three bytes is not looked at. */
    function TurnFor(pos: nat, next: nat, size: nat): Turn {
      match this
      case Coded(_, s) => Take(s, next)
      case Alone(_, _) => if pos + 4 > size then Stop else Pass(next)
    }
  }

  function Fill(n: nat): (bytes: seq<Byte>)
    ensures |bytes| == n && forall k | 0 <= k < n :: bytes[k] == 0xFF
  {
    seq(n, _ => 0xFF)
  }

  function Body(i: Item): (bytes: seq<Byte>)
    requires i.Valid()
    ensures |bytes| >= 1 && bytes[0] != 0xFF
  {
    match i
    case Coded(_, s) => [s.marker] + PutU16(|s.payload| + 2, false) + s.payload
    case Alone(_, m) => [m]
  }

  function PutItem(i: Item): seq<Byte>
    requires i.Valid()
  {
    Fill(i.fill + 1) + Body(i)
  }

  function PutItems(items: seq<Item>): seq<Byte>
    requires forall k | 0 <= k < |items| :: items[k].Valid()
  {
    if items == [] then [] else PutItem(items[0]) + PutItems(items[1..])
  }

  /** The segments of a list of items, in order. */
  function SegmentsOf(items: seq<Item>): seq<Segment> {
    if items == [] then []
    else (if items[0].Coded? then [items[0].segment] else []) + SegmentsOf(items[1..])
  }

  lemma SkipsFill(pre: seq<Byte>, n: nat, post: seq<Byte>)
    requires post != [] && post[0] != 0xFF
    ensures SkipFill(pre + Fill(n) + post, |pre|) == |pre| + n
  {
    var b := pre + Fill(n) + post;
    assert b[|pre| + n] == post[0];
    assert forall k | |pre| <= k < |pre| + n :: b[k] == 0xFF;
  }

  lemma CodedReadBack(pre: seq<Byte>, s: Segment, post: seq<Byte>)
    requires |s.payload| <= 0xFFFD
    ensures var b := pre + ([s.marker] + PutU16(|s.payload| + 2, false) + s.payload) + post;
      && SegmentFits(b, |pre|) && SegmentAt(b, |pre|) == s && U16(b, |pre| + 1, false) == |s.payload| + 2
  {
    hide U16, PutU16, Holds;
    var n := |s.payload| + 2;
    var length := PutU16(n, false);
    var b := pre + ([s.marker] + length + s.payload) + post;
    assert b == (pre + [s.marker]) + length + (s.payload + post);
    HoldsMiddle(pre + [s.marker], length, s.payload + post);
    ReadU16(b, |pre| + 1, n, false);
    assert b == (pre + [s.marker] + length) + s.payload + post;
    assert b[|pre| + 3..|pre| + 1 + n] == s.payload;
    assert b[|pre|] == s.marker;
  }

  lemma ItemTurn(pre: seq<Byte>, i: Item, post: seq<Byte>)
    requires i.Valid()
    ensures var b, next := pre + PutItem(i) + post, |pre| + |PutItem(i)|;
      TurnAt(b, |pre|) == i.TurnFor(|pre|, next, |b|)
  {
    hide U16, PutU16, SegmentAt, SegmentFits, SkipFill;
    var start := pre + Fill(i.fill + 1);
    var b := pre + PutItem(i) + post;
    Assoc(pre, Fill(i.fill + 1), Body(i));
    Assoc(start, Body(i), post);
    SkipsFill(pre, i.fill + 1, Body(i) + post);
    assert b[|start|] == Body(i)[0];
    if i.Coded? {
      CodedReadBack(start, i.segment, post);
    }
  }

  lemma TurnVisits(b: seq<Byte>, pos: nat, i: Item, next: nat)
    requires pos <= next <= |b|
    requires TurnAt(b, pos) == i.TurnFor(pos, next, |b|)
    ensures Visit(b, pos) == SegmentsOf([i]) + Visit(b, next)
  {
    hide Visit, TurnAt;
    VisitTurn(b, pos);
    assert [i][1..] == [];
    if i.Alone? && pos + 4 > |b| {
      ShortTail(b, next);
    }
  }

  lemma ItemStep(pre: seq<Byte>, i: Item, post: seq<Byte>)
    requires i.Valid()
    ensures var b := pre + PutItem(i) + post;
      Visit(b, |pre|) == SegmentsOf([i]) + Visit(b, |pre| + |PutItem(i)|)
  {
    hide *;
    var b, next := pre + PutItem(i) + post, |pre| + |PutItem(i)|;
    ItemTurn(pre, i, post);
    TurnVisits(b, |pre|, i, next);
  }

  lemma ShortTail(b: seq<Byte>, pos: nat)
    requires pos <= |b| < pos + 4
    ensures Visit(b, pos) == []
  {
  }

  lemma TurnSuffix(pre: seq<Byte>, rest: seq<Byte>, pos: nat)
    requires pos <= |rest|
    ensures TurnAt(pre + rest, |pre| + pos) == TurnAt(rest, pos).Moved(|pre|)
  {
    hide U16, SegmentAt, SegmentFits, SkipFill;
    FillSuffix(pre, rest, pos);
    var p := SkipFill(rest, pos);
    if p < |rest| {
      assert (pre + rest)[|pre| + p] == rest[p];
      SegmentSuffix(pre, rest, p);
    }
  }

  /** Position independence: what the scan visits depends only on what follows its position. */
  lemma {:induction false} VisitSuffix(pre: seq<Byte>, rest: seq<Byte>, pos: nat)
    requires pos <= |rest|
    ensures Visit(pre + rest, |pre| + pos) == Visit(rest, pos)
    decreases |rest| - pos
  {
    hide TurnAt, Visit;
    TurnSuffix(pre, rest, pos);
    VisitTurn(pre + rest, |pre| + pos);
    VisitTurn(rest, pos);
    if !TurnAt(rest, pos).Stop? {
      VisitSuffix(pre, rest, TurnAt(rest, pos).next);
    }
  }

  lemma FillSuffix(pre: seq<Byte>, rest: seq<Byte>, pos: nat)
    requires pos <= |rest|
    ensures SkipFill(pre + rest, |pre| + pos) == |pre| + SkipFill(rest, pos)
    decreases |rest| - pos
  {
    if pos < |rest| && rest[pos] == 0xFF {
      FillSuffix(pre, rest, pos + 1);
    }
  }

  lemma SegmentSuffix(pre: seq<Byte>, rest: seq<Byte>, p: nat)
    requires p < |rest|
    ensures SegmentFits(pre + rest, |pre| + p) <==> SegmentFits(rest, p)
    ensures SegmentFits(rest, p) ==> SegmentAt(pre + rest, |pre| + p) == SegmentAt(rest, p)
    ensures SegmentFits(rest, p) ==> U16(pre + rest, |pre| + p + 1, false) == U16(rest, p + 1, false)
  {
    var b := pre + rest;
    if p + 3 <= |rest| {
      assert U16(b, |pre| + p + 1, false) == U16(rest, p + 1, false);
      hide U16;
      if SegmentFits(rest, p) {
        assert b[|pre| + p + 3..|pre| + p + 1 + U16(rest, p + 1, false)] ==
          rest[p + 3..p + 1 + U16(rest, p + 1, false)];
      }
    }
  }

  /** The scan recovers exactly the printed segments, whatever the fill, and goes on with what follows them. */
  lemma {:induction false} ScanRecovers(pre: seq<Byte>, items: seq<Item>, rest: seq<Byte>)
    requires forall k | 0 <= k < |items| :: items[k].Valid()
    ensures Visit(pre + PutItems(items) + rest, |pre|) == SegmentsOf(items) + Visit(rest, 0)
    decreases |items|
  {
    hide Visit, PutItem;
    var b := pre + PutItems(items) + rest;
    if items == [] {
      assert b == pre + rest;
      VisitSuffix(pre, rest, 0);
    } else {
      var first, others := PutItem(items[0]), PutItems(items[1..]);
      assert b == pre + first + (others + rest) == (pre + first) + others + rest;
      ItemStep(pre, items[0], others + rest);
      ScanRecovers(pre + first, items[1..], rest);
    }
  }

  /** The answer for a printed file: the last parseable EXIF segment if found, else the last JFIF segment if found,
      else the EXIF one, else the JFIF one, in whatever order they stand. */
  lemma JpegMeaning(items: seq<Item>, rest: seq<Byte>)
    requires forall k | 0 <= k < |items| :: items[k].Valid()
    requires |SOI + PutItems(items) + rest| >= 4
    ensures JpegDpi(SOI + PutItems(items) + rest) ==
      var segments := SegmentsOf(items) + Visit(rest, 0); Choose(LastExif(segments), LastJfif(segments))
  {
    hide Visit, Choose, LastExif, LastJfif;
    var b := SOI + PutItems(items) + rest;
    assert b[..2] == SOI;
    ScanRecovers(SOI, items, rest);
  }

  /** Nothing is visited after a terminating marker. */
  lemma NothingAfterTerminator(fill: nat, marker: Byte, anything: seq<Byte>)
    requires EndsScan(marker)
    ensures Visit(Fill(fill) + [marker] + anything, 0) == []
    ensures Visit([], 0) == []
  {
    assert Fill(fill) + [marker] + anything == [] + Fill(fill) + ([marker] + anything);
    SkipsFill([], fill, [marker] + anything);
  }

  /** Whole files: items, a terminating marker, entropy-coded data or anything else. */
  lemma TerminatedJpegMeaning(items: seq<Item>, fill: nat, marker: Byte, anything: seq<Byte>)
    requires forall k | 0 <= k < |items| :: items[k].Valid()
    requires EndsScan(marker)
    ensures JpegDpi(SOI + PutItems(items) + (Fill(fill + 1) + [marker] + anything)) ==
      Choose(LastExif(SegmentsOf(items)), LastJfif(SegmentsOf(items)))
  {
    hide Visit, Choose, LastExif, LastJfif;
    NothingAfterTerminator(fill + 1, marker, anything);
    JpegMeaning(items, Fill(fill + 1) + [marker] + anything);
    assert SegmentsOf(items) + [] == SegmentsOf(items);
  }

  // ---------------------------------------------------------------- which segment decides

  /** The last segment with a JFIF density. */
  predicate IsLastJfif(segments: seq<Segment>, k: nat) {
    && k < |segments| && JfifOf(segments[k]).Some?
    && forall j | k < j < |segments| :: JfifOf(segments[j]).None?
  }

  /** The last segment with an EXIF resolution. */
  predicate IsLastExif(segments: seq<Segment>, k: nat) {
    && k < |segments| && ExifOf(segments[k]).Some?
    && forall j | k < j < |segments| :: ExifOf(segments[j]).None?
  }

  predicate NoneJfif(segments: seq<Segment>) {
    forall j | 0 <= j < |segments| :: JfifOf(segments[j]).None?
  }

  predicate NoneExif(segments: seq<Segment>) {
    forall j | 0 <= j < |segments| :: ExifOf(segments[j]).None?
  }

  lemma {:induction false} LastJfifIs(segments: seq<Segment>, k: nat)
    ensures IsLastJfif(segments, k) ==> LastJfif(segments) == JfifOf(segments[k])
    ensures NoneJfif(segments) ==> LastJfif(segments) == None
  {
    hide JfifOf;
    if segments != [] {
      assert forall j | 0 <= j < |segments| - 1 :: ButLast(segments)[j] == segments[j];
      LastJfifIs(ButLast(segments), k);
    }
  }

  lemma {:induction false} LastExifIs(segments: seq<Segment>, k: nat)
    ensures IsLastExif(segments, k) ==> LastExif(segments) == ExifOf(segments[k])
    ensures NoneExif(segments) ==> LastExif(segments) == None
  {
    hide ExifOf;
    if segments != [] {
      assert forall j | 0 <= j < |segments| - 1 :: ButLast(segments)[j] == segments[j];
      LastExifIs(ButLast(segments), k);
    }
  }

  /** A printed file with both kinds of segments: a found EXIF density wins, then a found JFIF density; when neither is
      found, the EXIF segment gives the reason. */
  lemma BothKindsDecide(items: seq<Item>, fill: nat, marker: Byte, anything: seq<Byte>, exif: nat, jfif: nat)
    requires forall k | 0 <= k < |items| :: items[k].Valid()
    requires EndsScan(marker) && IsLastExif(SegmentsOf(items), exif) && IsLastJfif(SegmentsOf(items), jfif)
    ensures var x, j := ExifOf(SegmentsOf(items)[exif]).value, JfifOf(SegmentsOf(items)[jfif]).value;
      var answer := JpegDpi(SOI + PutItems(items) + (Fill(fill + 1) + [marker] + anything));
      && (x.found ==> answer == x)
      && (!x.found && j.found ==> answer == j)
      && (!x.found && !j.found ==> answer == x)
  {
    hide JpegDpi, JfifOf, ExifOf, LastJfif, LastExif, PutItems, SegmentsOf;
    TerminatedJpegMeaning(items, fill, marker, anything);
    LastExifIs(SegmentsOf(items), exif);
    LastJfifIs(SegmentsOf(items), jfif);
  }

  /** A printed file with one kind of segments, or none. */
  lemma OneKindDecides(items: seq<Item>, fill: nat, marker: Byte, anything: seq<Byte>, k: nat)
    requires forall k | 0 <= k < |items| :: items[k].Valid()
    requires EndsScan(marker)
    ensures var segments := SegmentsOf(items);
      var answer := JpegDpi(SOI + PutItems(items) + (Fill(fill + 1) + [marker] + anything));
      && (NoneJfif(segments) && IsLastExif(segments, k) ==> answer == ExifOf(segments[k]).value)
      && (NoneExif(segments) && IsLastJfif(segments, k) ==> answer == JfifOf(segments[k]).value)
      && (NoneExif(segments) && NoneJfif(segments) ==> answer == Dpi(false, 0.0, 0.0, Jpeg, NoPhysicalDpi))
  {
    hide JpegDpi, JfifOf, ExifOf, LastJfif, LastExif, PutItems, SegmentsOf;
    TerminatedJpegMeaning(items, fill, marker, anything);
    LastExifIs(SegmentsOf(items), k);
    LastJfifIs(SegmentsOf(items), k);
  }

  // ---------------------------------------------------------------- a TIFF block inside EXIF

  function TiffDpi(b: seq<Byte>): Dpi {
    var r := Tiff.ResolutionOf(b);
    if r.None? then NotFound(TiffIfd, NoPhysicalDpi) else DpiFromTiffResolution(r.value, TiffIfd)
  }

  method ParseTiff(bytes: seq<Byte>) returns (r: Dpi)
    requires |bytes| <= MAX_VECTOR
    ensures r == TiffDpi(bytes)
  {
    var resolution := Tiff.ParseTiffResolution(bytes);
    if resolution.None? {
      return NotFound(TiffIfd, NoPhysicalDpi);
    }
    return DpiFromTiffResolution(resolution.value, TiffIfd);
  }

  const MAX_EXIF_BLOCK: nat := 65527

  function ExifSegment(tiff: seq<Byte>): (s: Segment)
    ensures s.marker == APP1 && |s.payload| == 6 + |tiff|
  {
    Segment(APP1, EXIF + tiff)
  }

  /** An item that says nothing of resolution. */
  predicate IsNeutral(i: Item) {
    i.Coded? ==> JfifOf(i.segment).None? && ExifOf(i.segment).None?
  }

  predicate AllNeutral(items: seq<Item>) {
    forall k | 0 <= k < |items| :: items[k].Valid() && IsNeutral(items[k])
  }

  lemma {:induction false} SegmentsOfJoined(xs: seq<Item>, ys: seq<Item>)
    ensures SegmentsOf(xs + ys) == SegmentsOf(xs) + SegmentsOf(ys)
  {
    if xs == [] {
      assert xs + ys == ys && [] + SegmentsOf(ys) == SegmentsOf(ys);
    } else {
      assert (xs + ys)[1..] == xs[1..] + ys && (xs + ys)[0] == xs[0];
      SegmentsOfJoined(xs[1..], ys);
      Assoc(if xs[0].Coded? then [xs[0].segment] else [], SegmentsOf(xs[1..]), SegmentsOf(ys));
    }
  }

  /** Neutral items behind others change neither answer. */
  lemma {:induction false} NeutralChangesNothing(segments: seq<Segment>, items: seq<Item>)
    requires AllNeutral(items)
    ensures LastJfif(segments + SegmentsOf(items)) == LastJfif(segments) &&
      LastExif(segments + SegmentsOf(items)) == LastExif(segments)
    decreases |items|
  {
    hide JfifOf, ExifOf, LastJfif, LastExif;
    if items == [] {
      assert segments + SegmentsOf(items) == segments;
    } else {
      var head := if items[0].Coded? then [items[0].segment] else [];
      Assoc(segments, head, SegmentsOf(items[1..]));
      assert forall k | 0 <= k < |items| - 1 :: items[1..][k] == items[k + 1];
      NeutralChangesNothing(segments + head, items[1..]);
      if items[0].Coded? {
        AppendOne(segments, items[0].segment);
      } else {
        assert segments + head == segments;
      }
    }
  }

  /** As the only resolution segment of a JPEG, among any other segments and lone markers and before any terminator, a
      TIFF block gives the answer it gives as a file. */
  lemma ExifAgreesWithTiff(before: seq<Item>, tiff: seq<Byte>, fill: nat, after: seq<Item>, endFill: nat, marker: Byte,
      anything: seq<Byte>)
    requires |tiff| <= MAX_EXIF_BLOCK && AllNeutral(before) && AllNeutral(after) && EndsScan(marker)
    ensures var items := before + [Coded(fill, ExifSegment(tiff))] + after;
      && (forall k | 0 <= k < |items| :: items[k].Valid())
      && JpegDpi(SOI + PutItems(items) + (Fill(endFill + 1) + [marker] + anything)).Agrees(TiffDpi(tiff))
  {
    hide JpegDpi, JfifOf, ExifOf, ExifSegment, PutItems, SegmentsOf, LastJfif, LastExif, Tiff.ResolutionOf,
      DpiFromTiffResolution;
    var i := Coded(fill, ExifSegment(tiff));
    var items := before + [i] + after;
    OneSegment(i);
    SegmentsOfJoined(before, [i]);
    SegmentsOfJoined(before + [i], after);
    NothingVisited();
    NeutralChangesNothing([], before);
    assert [] + SegmentsOf(before) == SegmentsOf(before);
    AppendOne(SegmentsOf(before), i.segment);
    NeutralChangesNothing(SegmentsOf(before) + [i.segment], after);
    TerminatedJpegMeaning(items, endFill, marker, anything);
    ExifSegmentMeans(tiff);
    SourceDoesNotMatter(tiff);
  }

  lemma OneSegment(i: Item)
    ensures SegmentsOf([i]) == if i.Coded? then [i.segment] else []
  {
    assert [i][1..] == [];
  }

  lemma ExifSegmentMeans(tiff: seq<Byte>)
    requires |tiff| <= MAX_EXIF_BLOCK
    ensures JfifOf(ExifSegment(tiff)) == None
    ensures ExifOf(ExifSegment(tiff)) ==
      if Tiff.ResolutionOf(tiff).None? then None
        else Some(DpiFromTiffResolution(Tiff.ResolutionOf(tiff).value, ExifIfd))
  {
    hide Tiff.ResolutionOf, DpiFromTiffResolution;
    var s := ExifSegment(tiff);
    assert s.payload[..6] == EXIF && s.payload[6..] == tiff;
    if |tiff| <= 8 {
      SmallBlocksAreEmpty(tiff);
    }
  }

  lemma SourceDoesNotMatter(tiff: seq<Byte>)
    ensures Tiff.ResolutionOf(tiff).Some? ==>
      DpiFromTiffResolution(Tiff.ResolutionOf(tiff).value,
        ExifIfd).Agrees(DpiFromTiffResolution(Tiff.ResolutionOf(tiff).value, TiffIfd))
  {
    hide Tiff.ResolutionOf;
  }

  lemma SmallBlocksAreEmpty(tiff: seq<Byte>)
    requires |tiff| <= 8
    ensures Tiff.ResolutionOf(tiff) == None
  {
    if Tiff.DirectoryFits(tiff) {
      var le := Tiff.IsLittleEndian(tiff);
      var ifd := U32(tiff, 4, le);
      assert U16(tiff, ifd, le) == 0;
    }
  }

  // ---------------------------------------------------------------- prefixes

  /** Whether a walk from `pos` comes to a point where the scan stops whatever follows: a start-of-scan or end-of-image
      marker, or a segment length below two. Markers within the last three bytes count, although the scan of `b` alone
      does not look at them. */
  predicate Settled(b: seq<Byte>, pos: nat)
    requires pos <= |b|
    decreases |b| - pos
  {
    var p := SkipFill(b, pos);
    if p == |b| then false
    else if EndsScan(b[p]) then true
    else if Standalone(b[p]) then Settled(b, p + 1)
    else if p + 3 > |b| then false
    else if U16(b, p + 1, false) < 2 then true
    else p + 1 + U16(b, p + 1, false) <= |b| && Settled(b, p + 1 + U16(b, p + 1, false))
  }

  lemma FillInPrefix(b: seq<Byte>, more: seq<Byte>, pos: nat)
    requires pos <= |b|
    ensures SkipFill(b, pos) < |b| ==> SkipFill(b + more, pos) == SkipFill(b, pos)
    decreases |b| - pos
  {
    if pos < |b| && b[pos] == 0xFF {
      FillInPrefix(b, more, pos + 1);
    }
  }

  lemma SegmentInPrefix(b: seq<Byte>, more: seq<Byte>, p: nat)
    requires SegmentFits(b, p)
    ensures SegmentFits(b + more, p) && SegmentAt(b + more, p) == SegmentAt(b, p)
    ensures U16(b + more, p + 1, false) == U16(b, p + 1, false)
  {
    var whole := b + more;
    assert U16(whole, p + 1, false) == U16(b, p + 1, false);
    hide U16;
    assert whole[p + 3..p + 1 + U16(b, p + 1, false)] == b[p + 3..p + 1 + U16(b, p + 1, false)];
  }

  lemma LengthInPrefix(b: seq<Byte>, more: seq<Byte>, p: nat)
    requires p + 3 <= |b|
    ensures U16(b + more, p + 1, false) == U16(b, p + 1, false)
  {
  }

  /** Behind the point at which it is settled, no further byte is ever looked at. */
  lemma {:induction false} SettledStays(b: seq<Byte>, more: seq<Byte>, pos: nat)
    requires pos <= |b| && Settled(b, pos)
    ensures Visit(b + more, pos) == Visit(b, pos)
    decreases |b| - pos
  {
    hide U16, SegmentAt, Visit;
    var p := SkipFill(b, pos);
    FillInPrefix(b, more, pos);
    VisitTurn(b, pos);
    VisitTurn(b + more, pos);
    assert (b + more)[p] == b[p];
    if EndsScan(b[p]) {
    } else if Standalone(b[p]) {
      SettledStays(b, more, p + 1);
      if pos + 4 > |b| {
        ShortTail(b, p + 1);
      }
    } else {
      LengthInPrefix(b, more, p);
      if U16(b, p + 1, false) >= 2 {
        SegmentInPrefix(b, more, p);
        SettledStays(b, more, p + 1 + U16(b, p + 1, false));
      }
    }
  }

  /** A settled prefix decides the answer. */
  lemma PrefixIsExact(b: seq<Byte>, more: seq<Byte>)
    requires |b| >= 4 && b[..2] == SOI && Settled(b, 2)
    ensures JpegDpi(b + more) == JpegDpi(b)
  {
    hide Visit, Settled, Choose, LastExif, LastJfif;
    assert (b + more)[..2] == b[..2];
    SettledStays(b, more, 2);
  }
}
